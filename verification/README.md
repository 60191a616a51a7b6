# Cruiserex appointments — a Dafny model of the appointment lifecycle

The system takes service appointments for a small company. A public booking
form posts a request to a serverless endpoint. That endpoint validates the
request, stores it in a hosted table and mails a plain-text notification to
the business. A second endpoint, protected by a bearer token, lets an
administrator list, create, update and delete appointments. The admin page
script drives it: a token login, a listing table, and confirm, cancel and
delete buttons per row.

This project models that lifecycle in four layers:

- The table is a sequence of records in insertion order. Besides the query
  itself, a `fault` flag and the identifier the store assigns decide what the
  backend does (`AppointmentStore`).
- The shared service validates a payload and runs create, list, update and
  delete over the table (`AppointmentService`).
- The two endpoints are pure functions from a request and a table to a
  response and a new table (`AdminEndpoint`, `IntakeEndpoint`). The intake
  endpoint also yields the composed mail.
- The two page scripts are functions from the stored token, the user's
  choices and the server's answers to what the page shows and sends
  (`AdminConsole`, `BookingForm`).

Supporting modules:

- `Results` holds `Option` and `Result`.
- `Strings` holds prefix, split and join, lexicographic order, decimal text
  and padding.
- `JsValues` holds JSON scalars, truthiness, `String(v)` and `trim`.
- `Http` holds the request and response shapes on both sides.
- `UriComponent` holds `encodeURIComponent` and its decoding.

Clocks, storage, the DOM and the network are parameters:

- "now" is a `LocalTime` or a millisecond count.
- `Date` parsing is a function argument.
- Each `fetch` answer is a `ServerReply`.
- `window.confirm` is a boolean.
- The mailer's delivery outcome is an `Option<string>`.

The public endpoint answers a malformed email with 500. Only messages starting
with `El campo` map to 400 (api/create-appointment.js:103), and the email
message does not; `IntakeEndpoint.InvalidEmailIsServerError` proves the 500.

## Model

| member | source | states |
|---|---|---|
| JsValues.TrimSpec | api/appointment-admin.js:42 | `trim` gives the empty text exactly when every character is white space; otherwise it keeps a middle part that neither starts nor ends with white space, with only white space cut around it |
| JsValues.IsBlankTrims | api/appointment-admin.js:42 | a value is blank exactly when `String(v).trim() === ''` |
| UriComponent.Utf8RoundTrip | js/admin-appointments.js:189 | every character's UTF-8 bytes announce their own length and decode back to the character |
| UriComponent.Encode | js/admin-appointments.js:189 | the encoding uses only unreserved characters, `%` and hex digits |
| UriComponent.DecodeEncode | js/admin-appointments.js:189 | decoding the encoding of any text gives the text back |
| UriComponent.EncodeUnreserved | js/admin-appointments.js:189 | text made only of unreserved characters is sent unchanged |
| AppointmentStore.InsertRow | api/appointment-admin.js:73-77 | an insert succeeds exactly when there is no fault and the assigned id is unused; it appends the row and keeps ids unique |
| AppointmentStore.NotAfterTotal | api/appointment-admin.js:94-95 | any two rows are comparable in the date-then-time order |
| AppointmentStore.NotAfterTransitive | api/appointment-admin.js:94-95 | the date-then-time order is transitive |
| AppointmentStore.SortByDateTime | api/appointment-admin.js:91-95 | the listing is sorted by date, then time, and is a permutation of the rows |
| AppointmentStore.SelectOrdered | api/appointment-admin.js:91-95 | the select fails exactly on a fault; otherwise it returns every row, sorted |
| AppointmentStore.Patch | api/appointment-admin.js:115 | an update object is accepted exactly when it names only columns (or a text/number `id`); each named column takes the new value and every other column keeps its old one |
| AppointmentStore.UpdateById | api/appointment-admin.js:113-118 | a successful update-by-id patches the one row carrying the id and replaces it in place; ids stay unique; with no fault, an existing id and column-only keys, it succeeds |
| AppointmentStore.DeleteById | api/appointment-admin.js:136-139 | a delete fails only on a fault; it removes exactly the rows with that id and keeps all others; with unique ids it removes one row when the id exists and none otherwise |
| AppointmentStore.RemoveIdKeepsUnique | api/appointment-admin.js:136-139 | removing rows keeps ids unique |
| AppointmentStore.RemoveIdMembers | api/appointment-admin.js:136-139 | the rows kept by a removal are exactly those of the table with another id, none kept more often than it occurs |
| AppointmentStore.RemoveIdConcat | api/appointment-admin.js:136-139 | removing an id from two tables joined is removing it from each and joining the results, so the kept rows keep their order |
| AppointmentStore.RemoveIdCount | api/appointment-admin.js:136-139 | removing an absent id changes nothing; removing a present id from a table with unique ids removes exactly one row |
| AppointmentService.MessageMarker | api/appointment-admin.js:41-48 | exactly the missing-field messages begin with `El campo`, and no service message is empty |
| AppointmentService.IsValidEmailSpec | api/appointment-admin.js:23-27 | the email check accepts exactly the truthy values whose text contains `.+@.+\..+`: an `@` with a character before it, a `.` at least two places later with a character after it, and no line terminator in the matched parts |
| AppointmentService.ScanAtSpec | api/appointment-admin.js:26 | scanning from a position finds an `@` exactly when a match of the pattern starts at or after it |
| AppointmentService.FirstMissing | api/appointment-admin.js:41-45 | the reported field is absent or blank and every field checked before it is present; none is reported only when all are present |
| AppointmentService.Validate | api/appointment-admin.js:29-50 | validation fails on the first missing or blank field in checking order; the email is judged only when all eight fields are present; it passes exactly when all are present and the email is well formed |
| AppointmentService.InitialStatus | api/appointment-admin.js:70 | the status a new record gets is never falsy (the full rule, the payload's status or else `pending`, is stated by `AppointmentService.Create`) |
| AppointmentService.NewRecord | api/appointment-admin.js:61-71 | the record copies the eight fields from the payload, takes the default status and the assigned id, and nothing else |
| AppointmentService.Create | api/appointment-admin.js:58-85 | a validation failure is reported as is; otherwise the create succeeds exactly when the store accepts the row; on success the table grows by exactly the new record, whose status defaults to `pending` |
| AppointmentService.List | api/appointment-admin.js:90-103 | listing fails exactly on a fault, with its message; otherwise it is every row sorted by date and time |
| AppointmentService.Update | api/appointment-admin.js:108-126 | a falsy id fails before the store; an unknown id or a store fault fails with the update failure; a success changes only the row with that id and only the supplied keys |
| AppointmentService.Delete | api/appointment-admin.js:131-145 | a falsy id fails before the store; otherwise it fails exactly on a fault, and on success only the rows with that id are gone |
| AppointmentService.RequiredKeysDistinct | api/appointment-admin.js:30-39 | the eight required fields are checked under eight different keys |
| AppointmentService.FirstMissingIs | api/appointment-admin.js:41-45 | when a field is the first absent one, validation reports that field |
| AppointmentService.EmptyPayloadFailsOnDate | api/appointment-admin.js:41-45 | an empty payload fails on `date` |
| AppointmentService.MissingOneField | api/appointment-admin.js:41-45 | removing or blanking one required field of an otherwise complete payload fails on exactly that field |
| AppointmentService.CreateIgnoresOtherKeys | api/appointment-admin.js:61-71 | payload keys other than the fields and `status` do not change what create stores or reports |
| AdminEndpoint.AuthorizationHeader | api/appointment-admin.js:150 | the lower-case header is used when it is non-empty, else the capitalised one; an empty header counts as missing |
| AdminEndpoint.AuthorizedIff | api/appointment-admin.js:149-157 | a request is authorized exactly when the header is `Bearer`, a space and the secret, possibly followed by a space and more text, for a non-empty secret without spaces |
| AdminEndpoint.AcceptedHeaderSplit | api/appointment-admin.js:153-156 | the space-split test (`Bearer`, a non-empty second part equal to the secret) accepts exactly the headers of that shape |
| AdminEndpoint.UpdateIdOf | api/appointment-admin.js:183 | the query's id wins when non-empty; otherwise the body's id is used, if any |
| AdminEndpoint.UpdatesOf | api/appointment-admin.js:188-189 | the updates are the body's keys without `id`, with their values |
| AdminEndpoint.Handle | api/appointment-admin.js:162-164 | an unauthorized request gets 401 and leaves the table alone |
| AdminEndpoint.HandleOutcomes | api/appointment-admin.js:161-212 | every answer is 200, 201, 204, 400, 401, 405 or 500; the `Allow` header is set exactly on the 405; a failed request leaves the table unchanged; 405 comes exactly for an authorized request with an unserved method, and it lists the five served methods and leaves the table |
| AdminEndpoint.ReadOrCreateOutcomes | api/appointment-admin.js:169-179 | GET and POST answer 200, 201 or 500 and change the table only on success |
| AdminEndpoint.ListOutcomes | api/appointment-admin.js:169-173 | an authorized GET leaves the table; it answers 200 with the service's listing exactly when the store does not fail, and otherwise 500 with the listing failure's message |
| AdminEndpoint.CreateOutcomes | api/appointment-admin.js:175-179 | an authorized POST answers 201 with the created record and the grown table exactly when the service's creation succeeds, and otherwise 500 with that failure's own message and the table unchanged |
| AdminEndpoint.ChangeOutcomes | api/appointment-admin.js:181-204 | PUT, PATCH and DELETE answer 200, 204, 400 or 500 and change the table only on success |
| AdminEndpoint.UpdateOutcomes | api/appointment-admin.js:181-193 | PUT and PATCH answer 200, 400 or 500 and change the table only on success; without a truthy id the answer is the 400 naming the missing id; with one it is 200 with the written record exactly when the service's update succeeds, and otherwise 500 with the update failure's message; a store fault always gives 500 |
| AdminEndpoint.DeleteOutcomes | api/appointment-admin.js:195-204 | DELETE answers 204, 400 or 500 and changes the table only on success; without a non-empty `?id=` the answer is the 400 naming the query parameter; with one it is 204 without a body and the service's remaining table exactly when the store does not fail, and otherwise 500 with the deletion failure's message |
| AdminEndpoint.ServerErrorCarriesMessage | api/appointment-admin.js:209-212 | the 500 for a service failure carries exactly that failure's message, never the generic fallback text |
| AdminEndpoint.GetLists | api/appointment-admin.js:169-173 | an authorized GET answers 200 with every row in date-then-time order and writes nothing |
| AdminEndpoint.UpdateKeepsIds | api/appointment-admin.js:188-191 | PUT and PATCH never change the stored identifiers |
| AdminEndpoint.QueryIdFirst | api/appointment-admin.js:183-191 | for PUT and PATCH with a non-empty query id, setting or adding any `id` in the body leaves the whole exchange unchanged; an authorized request answers 200 exactly when updating the query's id succeeds |
| AdminEndpoint.DeleteIgnoresBody | api/appointment-admin.js:195-204 | the outcome of DELETE does not depend on the body |
| AdminEndpoint.DeleteNeedsQueryId | api/appointment-admin.js:197-200 | an authorized DELETE without a query id gets 400 and leaves the table alone |
| AdminEndpoint.PatchStatusScenario | api/appointment-admin.js:181-193 | patching the status of an existing record answers 200 with the record, which has the new status, the same id and the same other columns, and has taken the old record's place |
| AdminEndpoint.StatusUpdate | api/appointment-admin.js:108-126 | the service side of a status patch succeeds and changes only the status column of that row |
| AdminEndpoint.DeleteScenario | api/appointment-admin.js:195-204 | deleting an existing record answers 204 with no body, leaves no row with that id, and shrinks the table by one |
| IntakeEndpoint.JsNumber | api/create-appointment.js:23 | blank port text reads as 0, and any reading of text without a minus sign is non-negative |
| IntakeEndpoint.JsNumberOfDigits | api/create-appointment.js:23 | text of digits only reads as its decimal value |
| IntakeEndpoint.JsNumberOfDecimal | api/create-appointment.js:23 | a port written as canonical digits reads back as that number |
| IntakeEndpoint.CreateTransport | api/create-appointment.js:16-34 | the transport fails, with its message, exactly when one of host, port, user or password is unset or empty; otherwise it carries them, and it is secure exactly when the port reads as 465 |
| IntakeEndpoint.SecurePorts | api/create-appointment.js:28 | `465`, ` 465` plus a newline, and `0465` all read as 465, the secure port; `587` reads as 587 |
| IntakeEndpoint.NotificationLines | api/create-appointment.js:45-53 | the body has eleven lines: the heading, a blank line, one labelled line per required field in checking order, and the empty rest |
| IntakeEndpoint.NotificationLayout | api/create-appointment.js:45-53 | the notification text is exactly those lines joined by newlines |
| IntakeEndpoint.NotificationLinesRecoverable | api/create-appointment.js:45-53 | when no field contains a newline, splitting the text at newlines gives the lines back |
| IntakeEndpoint.ComposeNotification | api/create-appointment.js:36-74 | the mail fails exactly when the transport does; it goes from the SMTP user to the target address, or to the user when no target is set, with the fixed subject and the text body |
| IntakeEndpoint.FailureStatus | api/create-appointment.js:103 | a caught error is 400 exactly when its message starts with `El campo`, otherwise 500 |
| IntakeEndpoint.Failure | api/create-appointment.js:102-107 | the error answer carries the message, or a fixed text when the message is empty |
| IntakeEndpoint.Handle | api/create-appointment.js:77-81 | anything but POST gets 405 with `Allow: POST`, no table change and no mail |
| IntakeEndpoint.NotifyAndAnswer | api/create-appointment.js:89-98 | after a create the table keeps the record; a mail is composed exactly when the transport settings are complete; the answer is 201 with the record exactly when the mail was also delivered, else 400 or 500 |
| IntakeEndpoint.CreateThenNotify | api/create-appointment.js:87-98 | create runs before the notification: a failed create writes nothing and sends no mail; a mail is only about the created record; 201 comes exactly when create, transport and delivery all succeed |
| IntakeEndpoint.CreateFailureStatus | api/create-appointment.js:99-107 | a create failure is answered 400 exactly when it names a missing field, 500 otherwise, with the service's message |
| IntakeEndpoint.MissingBodyFailsOnDate | api/create-appointment.js:85 | a POST without a body is answered 400 with the `date` missing-field message, and nothing is stored or mailed |
| IntakeEndpoint.InvalidEmailIsServerError | api/create-appointment.js:103 | a complete payload with a malformed email is answered 500, not 400 |
| IntakeEndpoint.NotifierFailureKeepsRecord | api/create-appointment.js:99-107 | when the mailer rejects the mail the new record stays stored, yet the answer is an error |
| AdminConsole.AdminRequest | js/admin-appointments.js:22-34 | no request without a stored token; otherwise the caller's method, body and headers go to the endpoint plus path, with `Authorization: Bearer <token>` set over a caller header of that name |
| AdminConsole.AdminReply | js/admin-appointments.js:36-40 | a failed fetch and a 401 become errors (the 401 with the fixed message); any other answer passes through |
| AdminConsole.ConsoleTokenAuthorizes | js/admin-appointments.js:26-29 | the endpoint accepts the console's header exactly when the secret has no space and the token is the secret, possibly followed by a space and more text |
| AdminConsole.FormatDateReverses | js/admin-appointments.js:43-48 | three dash-free parts joined by dashes come out reversed and joined by slashes, so `YYYY-MM-DD` becomes `DD/MM/YYYY` |
| AdminConsole.FormatTime | js/admin-appointments.js:50-54 | the result is the prefix of the input of length `min(5, length)` |
| AdminConsole.FormatTimeIdempotent | js/admin-appointments.js:50-54 | formatting a formatted time changes nothing |
| AdminConsole.FormatTimeCodeUnits | js/admin-appointments.js:53 | when the first five characters lie in the Basic Multilingual Plane, the result's UTF-16 code units are the first five code units of the input, as `slice(0, 5)` cuts them |
| AdminConsole.FormatTimeDropsSeconds | js/admin-appointments.js:50-54 | `HH:MM` followed by anything becomes `HH:MM`, and `HH:MM` stays |
| AdminConsole.DateTimeCell | js/admin-appointments.js:88-92 | a falsy value shows blank, a text is formatted, and any other value makes the rendering throw |
| AdminConsole.RenderRow | js/admin-appointments.js:88-110 | a row renders exactly when its date and time cells do; the date and time cells hold the formatted date and time; the requester, company, location, phone and email cells show the record's text or blank; the status cell shows `pending` when the record has none |
| AdminConsole.TakeSome | js/admin-appointments.js:85-223 | rows are kept in order up to the first record that fails, and the flag says whether every record rendered |
| AdminConsole.RenderAll | js/admin-appointments.js:85-223 | the shown rows are the records' rows in order up to the first failing record, and all of them when none fails |
| AdminConsole.LoadAppointments | js/admin-appointments.js:56-235 | without a token the previous rows stay with the no-token message; the rows change only for a JSON array answer other than 401; they are then exactly the records rendered before the first one that cannot be, in order, and an error is shown exactly when some record cannot be rendered |
| AdminConsole.StatusBody | js/admin-appointments.js:129 | the PATCH body holds exactly the record's id, when it has one, and the new status |
| AdminConsole.SetStatus | js/admin-appointments.js:120-146 | nothing happens unless the user agrees; with agreement and a stored token a request is sent, and any request is a PATCH of the id with the target status; the row changes only on an ok, non-401 answer with a JSON body, and every such answer updates it to show the answer's status or the target, with no alert |
| AdminConsole.Updated | js/admin-appointments.js:139-141 | the record takes the answer's status (absent when the answer has none) and the cell shows it or the target status |
| AdminConsole.SetStatusFailureKeepsRow | js/admin-appointments.js:132-137 | a failed fetch, a 401 or a non-ok answer leaves the row as it was |
| AdminConsole.SetStatusShowsServerStatus | js/admin-appointments.js:139-141 | an ok answer carrying the new status shows it in the record and the cell |
| AdminConsole.DeleteRow | js/admin-appointments.js:184-205 | nothing happens unless the user agrees; with agreement and a stored token a request is sent, and any request is a DELETE with the encoded id in the query; the row goes exactly on an ok, non-401 answer |
| AdminConsole.DeleteQueryCarriesId | js/admin-appointments.js:189 | the delete query decodes back to the record's id text |
| AdminConsole.Login | js/admin-appointments.js:266-312 | a blank secret is refused without a request; otherwise a GET with the bearer header is sent; the token is stored and the panel shown exactly on an ok, non-401 answer; a 401 shows the wrong-key message |
| AdminConsole.Logout | js/admin-appointments.js:315-320 | after logout no token is stored |
| AdminConsole.LoginThenRequest | js/admin-appointments.js:284-306 | after a successful login, later authenticated requests pass the endpoint's guard exactly when the login's check request does |
| AdminConsole.LogoutBlocksRequests | js/admin-appointments.js:315-319 | after logout every authenticated request fails with the no-token message, without a request |
| BookingForm.Lang | js/appointment.js:8 | the language in use is the stored one when it is non-empty, and `es` when none is stored or it is empty |
| BookingForm.T | js/appointment.js:6-14 | a storage failure gives the key; a result other than the key is the current language's non-empty entry; a present non-empty entry is always used |
| BookingForm.UntranslatedKeyIsItself | js/appointment.js:8-10 | with no dictionaries every key translates to itself; whatever the dictionaries, no stored language and an empty one translate as `es` does |
| BookingForm.TwoDigits | js/appointment.js:28-29 | a value below 100 is written as two decimal digits that read back as the value |
| BookingForm.TwoDigitsIsPadded | js/appointment.js:28-29 | the two digits are the decimal text left-padded with `0` to length 2 |
| BookingForm.FormatTime | js/appointment.js:33-37 | the time is five characters, two digits for the hours, a colon, two digits for the minutes, reading back as the hour and minute |
| BookingForm.FormatDateFields | js/appointment.js:26-31 | a date of a non-negative year splits at dashes into the year, the month from 1 in two digits and the day in two digits, each reading back as its value |
| BookingForm.AdminShowsBookedDate | js/appointment.js:26-31 | a date the form writes is shown by the admin listing day first, then month, then year |
| BookingForm.AdminShowsBookedTime | js/appointment.js:33-37 | a time the form writes is shown by the admin listing unchanged, with or without seconds appended |
| BookingForm.UpdateMinValues | js/appointment.js:39-58 | the minimum is today; the date value is non-empty and not before today as text; a non-empty value not before today is kept and any other becomes today; the time minimum is set exactly when the date is today, and then it is now |
| BookingForm.UpdateMinValuesIdempotent | js/appointment.js:39-58 | running the update again on its own result changes nothing |
| BookingForm.DigitsOnly | js/appointment.js:66-69 | the filtered phone contains only the digits 0-9 and is no longer than the input |
| BookingForm.DigitsOnlyCounts | js/appointment.js:68 | each digit occurs in the result as often as in the input, and no other character occurs |
| BookingForm.DigitsOnlyConcat | js/appointment.js:68 | filtering a concatenation is concatenating the filtered pieces, so the result keeps the input's digit order |
| BookingForm.DigitsOnlyKeepsDigits | js/appointment.js:68 | a text of digits passes unchanged |
| BookingForm.DigitsOnlyIdempotent | js/appointment.js:66-69 | filtering twice is filtering once |
| BookingForm.Payload | js/appointment.js:80-89 | the posted object holds the eight field texts under their keys, and no status or id |
| BookingForm.PayloadComplete | js/appointment.js:80-89 | the payload passes the endpoint's presence checks exactly when every field has text other than white space |
| BookingForm.Submit | js/appointment.js:72-126 | a request is sent exactly when the chosen moment parses and is not before now, otherwise the past-date message shows; the success popup and return home come exactly on an ok answer; a non-ok answer shows the server's error or the translated fallback; a failed fetch shows the generic error |
| BookingForm.BookingIsStoredPending | js/appointment.js:80-107 | a filled-in booking with a well-formed email, posted to a healthy intake endpoint, is answered 201 and stored as one new `pending` record with the assigned id |

## Left out

- The hosted database is a sequence of rows with a fault flag and an assigned id. The model has no connection setup, no start-up check of the database settings and no real query execution. Columns hold the JSON values written into them, with no type coercion.
- The store orders rows by the text of the date and time, compared code point by code point. Typed `date`/`time` column ordering is not modelled, and neither is the backend's order among rows with equal keys; the model fixes one such order.
- The mail transport is reduced to its settings and a delivery outcome. The HTML body is not modelled, because only the plain-text layout is stated.
- `console.error` logging is not modelled, because it has no effect on answers.
- IntakeEndpoint.CreateTransport: the port is read by `JsNumber`, which only knows blank text and optionally signed decimal digits. `Number` also accepts hex, octal and binary literals, fractions and exponents. For those forms the model reads "not a number", so a port written `0x1D1` or `465.0` is not marked secure, although the system would mark it so.
- JSON values are text, integers, booleans and `null`. Fractional numbers, arrays and nested objects as field values are not modelled, and `String(v)` of those is not defined here.
- A query parameter given twice (an array) is not modelled. Header names match only in the two spellings the endpoint looks up. The browser's case-insensitive merging of a caller's lower-case `authorization` header is excluded by a precondition of `ConsoleTokenAuthorizes`.
- AdminConsole.FormatTime: keeps the first five characters, while `slice(0, 5)` keeps the first five UTF-16 code units. The two differ only when a character outside the Basic Multilingual Plane lies among the first five, where the browser may cut a surrogate pair in half; such a half is not a Dafny character. `AdminConsole.FormatTimeCodeUnits` proves that they agree otherwise.
- JsValues.ToStr: numbers are unbounded integers. JavaScript numbers are doubles, so integers above 2^53 lose precision when parsed, and `String(n)` switches to exponent form from 1e21 on. Neither effect is modelled.
- Lone surrogate code units are not modelled: characters are Unicode scalar values, so `encodeURIComponent` never throws here.
- The DOM, `localStorage`, `alert`, `window.confirm` and page navigation are not modelled. They are replaced by values and returned data. The early returns when a page element is missing are not modelled, and neither is the start-up check that shows the panel when a token is already stored (js/admin-appointments.js:259-263; it is the `HasToken` test).
- `Login` does not model the listing load it triggers after success, because that is `LoadAppointments` on the new session.
- JavaScript `Date` parsing is a function parameter of `Submit`, and "now" is passed in. The form's `formatDate` and `formatTime` take the local calendar components, not a `Date`.
- A JSON `null` request body is treated as no body.
- `api/health.js` is not part of this model: it returns a constant answer. `js/main.js` is not part of this model: it is presentation and the translation dictionaries.
