# MyCabinet in Dafny

MyCabinet is a smart briefcase with a web dashboard. Its backend is an
Express server over MySQL:
- users register with a fingerprint slot, a phone and a password;
- the device reports fingerprint scans, GPS fixes and out-of-zone alerts;
- the single admin account logs in remotely to set a servo lock and read the
  access history.

Its frontend is a React dashboard:
- the Track page follows the device on a map;
- the Notifications page announces denied accesses;
- the History page pages through and exports the access log;
- the Fingerprint page registers, edits and deletes users.

The model treats every request handler as a pure function. It takes the
database and the request and returns a `Reply(status, body, db')`.
- `Store` is the whole database: the users, access-log, GPS, alerts and
  safe-zone tables, the Socket.IO events emitted so far, and the servo
  module's `currentAngle`.
- Each controller has its own module: `Users`, `Fingerprints`, `Denials`,
  `AccessHistory`, `Chart`, `Reset`, `Auth` (login, the `authenticate`
  middleware, logout), `Gps` and `Servo`.
- Each of the four pages is a state machine over its React state:
  `Track`, `Notifications`, `HistoryPage` and `FingerprintForm`.
- Support modules:
  - `Js` holds the loosely-typed request values and their coercions: truthiness, `Number()`, `isNaN`, `Number.isInteger`, and how MySQL reads a bound string compared with an INT column (as a number: leading blanks skipped, an optional '+' or '-', digits, fraction, exponent, trailing text ignored) or stored into one (rounded half away from zero).
  - `Newest` holds `ORDER BY created_at DESC` with `LIMIT`/`OFFSET`.
  - `Text` holds join, split and ASCII case folding.
  - `Wrappers` holds `Option`, first-match lookup and `Filter`.

The outside world is passed in as parameters:
- a clock reading `now`;
- a token verifier `verify`;
- a date-range predicate `inPeriod` for the history filters;
- a date formatter `format`;
- the servo device's success flag `deviceOk`;
- the index of the row a safe-zone upsert collides with (`clash`);
- the rows of the chart's `GROUP BY day, method, status` query, as `Chart.GroupRow`s.

bcrypt is idealised as `Hash(secret)`, and comparing means equality with the
secret.

## Model

| member | source | states |
|---|---|---|
| Users.FingerKey | backend/controllers/userController.js:7 | a path or body finger id passes the `!id \|\| isNaN(id)` guard exactly when it is truthy and numeric, and then denotes the same number for JavaScript and for MySQL |
| Users.SignedIdAccepted | backend/controllers/userController.js:7 | a '+'-signed run of digits passes the guard and names the same finger as the plain digits |
| Users.GetUserByFingerId | backend/controllers/userController.js:4-21 | the status is 200, 400 or 404: 400 exactly for a rejected id, 404 exactly when no user has that finger id, otherwise a stored row with that finger id; never writes |
| Users.GetUserByPhone | backend/controllers/userController.js:23-43 | the status is 200, 400 or 404: 400 for an empty phone, 404 exactly when no user has it, otherwise that user's row without its password; never writes |
| Users.GetLatestFinger | backend/controllers/userController.js:45-55 | `/latest` returns the greatest finger id when it is nonzero, else `id: null`, which happens only on an empty table or when the greatest finger id is 0; never writes |
| Users.RegisterUser | backend/controllers/userController.js:57-92 | 400 exactly for a missing field or a non-numeric finger id, 409 exactly when the finger id or the phone is taken (the finger message exactly for a finger clash), otherwise 201 with one new row holding the hashed password; nothing changes on failure |
| Users.RegisterKeepsUnique | backend/controllers/userController.js:71-80 | registration keeps finger ids and phones unique and row ids increasing |
| Users.UpdateUser | backend/controllers/userController.js:94-141 | 400 exactly for a bad id or a missing name or phone; 409 exactly when another finger's user has the new phone; 404 exactly when no user has the finger id; on 200 only that finger's rows change: names and phone are replaced, the password is re-hashed exactly when the new one is not blank under JavaScript's `trim()` (Unicode spaces and line terminators included), and id, finger id and flags are kept |
| Users.BlankPasswordKeepsHash | backend/controllers/userController.js:120-125 | a password that `trim()` empties, such as a lone no-break space, leaves every stored hash as it was |
| Users.UpdateKeepsUnique | backend/controllers/userController.js:108-115 | the phone check before the update keeps finger ids and phones unique |
| Users.DeleteUser | backend/controllers/userController.js:143-165 | 400 for a bad id, 404 exactly when no user has it, otherwise exactly the rows with other finger ids remain, in order |
| Users.DeleteKeepsUnique | backend/controllers/userController.js:143-165 | a deletion keeps finger ids and phones unique and row ids increasing |
| Fingerprints.NewestUserIsLast | backend/controllers/fingerprintController.js:10 | under increasing row ids, `ORDER BY id DESC LIMIT 1` is the last registered user |
| Fingerprints.GetLatestFinger | backend/controllers/fingerprintController.js:7-20 | the finger id of the user with the greatest row id, null exactly when there are no users |
| Fingerprints.LatestAfterRegister | backend/controllers/fingerprintController.js:7-20 | after a successful registration, the device's `latest` read returns the finger id just registered |
| Fingerprints.ValidateFingerprint | backend/controllers/fingerprintController.js:78-98 | 400 exactly for a missing id; otherwise valid exactly when MySQL reads the id as a whole number that some user's finger id equals, naming that user as "first last" |
| Fingerprints.ValidateRefusesFraction | backend/controllers/fingerprintController.js:86-89 | an id such as "1.5" validates nobody, whoever holds finger 1 |
| Fingerprints.ValidateReadsLikeMySql | backend/controllers/fingerprintController.js:86 | an id with leading blanks and a '+' validates exactly as the plain digits do |
| Js.SqlReadsFraction | backend/controllers/fingerprintController.js:86 | a string "n.f" compared with an INT matches n exactly when its fraction digits are all zero, and matches nothing otherwise |
| Js.SqlReadsDigits | backend/controllers/fingerprintController.js:86 | a plain or '+'-signed run of digits matches its own value |
| Js.SqlSkipsPadding | backend/controllers/fingerprintController.js:86 | leading blanks do not change what a string matches |
| Js.SqlReadsExponent | backend/controllers/fingerprintController.js:86 | "1e1" matches 10 |
| Js.SqlReadsTrailing | backend/controllers/fingerprintController.js:86 | "7abc" matches 7 |
| Js.SqlStoresRounded | backend/controllers/fingerprintController.js:157-159 | "1.5" is stored into an INT column as 2 |
| Js.StoredMatches | backend/controllers/fingerprintController.js:62-66 | a value that matches an INT is stored as that same INT |
| Js.SqlAgreesWithNumber | backend/controllers/fingerprintController.js:111-112 | whenever `Number(v)` is a number and `v` is not null, MySQL matches `v` against the same integer |
| Fingerprints.RegisterFingerprint | backend/controllers/fingerprintController.js:44-73 | as written: 400 exactly for a missing field, every complete request 500, nothing stored |
| Fingerprints.RegisterFingerprintUpsert | backend/controllers/fingerprintController.js:51-67 | corrected, under a non-strict `sql_mode`: 400 exactly for a missing field; otherwise 200 reporting whether the SELECT found the finger; if so, each of its rows takes the new name, phone and hash and keeps its id, finger id and flags, and every other row is unchanged; if not, exactly one row is appended with the finger id as MySQL stores it, is_active 1 and is_admin 0; no other table changes |
| Fingerprints.RegistrationNeverStored | backend/controllers/fingerprintController.js:2 | the as-written handler never stores a complete registration, while after the corrected one some row holds the finger id as MySQL stores it with the submitted name, phone and hash |
| Fingerprints.LogFingerprintEvent | backend/controllers/fingerprintController.js:104-132 | always one new PHYSICAL entry with the given status; it carries the finger id exactly when the scanned id is `>= 0`, and a user exactly when such a finger id belongs to a user |
| Fingerprints.GetLatestPhysicalDenials | backend/controllers/fingerprintController.js:138-149 | the five newest entries whose method and status equal 'PHYSICAL' and 'denied' under a case-insensitive collation, newest first; every older one is left out |
| Fingerprints.PhysicalDenialSpellings | backend/controllers/fingerprintController.js:141 | 'PHYSICAL'/'denied' and 'Physical'/'Denied' both select an entry; a 'Remote' one is never selected |
| Fingerprints.RecordDenial | backend/controllers/fingerprintController.js:154-164 | one new PHYSICAL denied entry with the finger id as MySQL stores the value (rounded, null for null), nothing else changes |
| Fingerprints.RecordedDenialIsShown | backend/controllers/fingerprintController.js:138-164 | a denial recorded after every entry in the log is among the five the denial feed shows |
| Denials.GetLatestDenials | backend/controllers/denialController.js:4-17 | the 20 newest entries of any method whose status equals 'denied' under a case-insensitive collation, newest first; never writes |
| Denials.DeniedSpellings | backend/controllers/denialController.js:8 | 'denied' and 'Denied' select an entry, 'granted' does not |
| Denials.DeleteDenialById | backend/controllers/denialController.js:19-32 | the path text is read as MySQL reads a string compared with an INT under a non-strict `sql_mode`; 200 exactly when it reads as a whole number some entry has as its id, and then exactly the entries with other ids remain, in order; otherwise 404 and nothing changes |
| Denials.DeleteKeepsOthers | backend/controllers/denialController.js:22-27 | deletion keeps every entry whose id the path does not denote and increasing entry ids, and leaves none whose id it denotes |
| Denials.DeletePathOfId | backend/controllers/denialController.js:19-27 | the path the page sends for an id denotes that id, and deletes exactly when an entry has it |
| Denials.DeleteIgnoresTrailingText | backend/controllers/denialController.js:22 | under a non-strict `sql_mode`, "7abc" deletes as "7" does |
| Denials.DeleteRefusesFraction | backend/controllers/denialController.js:22 | a path such as "1.5" deletes nothing and answers 404 |
| AccessHistory.PeriodOf | backend/controllers/historyController.js:11-18 | 'today', 'week' and 'month' select a date window, and every other filter selects none |
| AccessHistory.Selected | backend/controllers/historyController.js:11-18 | the filtered log holds exactly the entries inside the window, and the whole log when there is no window |
| AccessHistory.NameOf | backend/controllers/historyController.js:24-32 | the joined first name of the entry's user, 'Unknown' when there is no user id or no such user |
| AccessHistory.ScanShowsName | backend/controllers/fingerprintController.js:104-127 | a scan logged for a non-negative finger id that a user holds shows in the history under that user's first name; a negative id or one no user holds shows as 'Unknown' |
| AccessHistory.CeilDiv | backend/controllers/historyController.js:53 | `Math.ceil(count / limit)`: the fewest pages of `limit` rows that hold `count` rows |
| AccessHistory.GetAccessHistory | backend/controllers/historyController.js:6-68 | 500 exactly for a negative LIMIT or OFFSET; otherwise at most `limit` rows, the page count of the filtered log (null for a zero limit), and the requested page echoed; never writes |
| AccessHistory.PageIsExportSlice | backend/controllers/historyController.js:35-37 | page `p` of size `limit` is exactly records `(p-1)*limit ..` of the CSV export's newest-first list |
| AccessHistory.ExportRecords | backend/controllers/historyController.js:70-126 | the export writes one record per entry of the filtered log |
| AccessHistory.ExportIsSelection | backend/controllers/historyController.js:74-119 | the exported records are newest first and are a reordering of the filtered entries, each exported exactly once with its id, joined name, action, method, status and time |
| Chart.WeeklyStats | backend/controllers/chartController.js:3-39 | seven records, Monday to Sunday, each cell the count of the first grouped row with that day, method and status, else 0 |
| Chart.UnchartedRowsIgnored | backend/controllers/chartController.js:21-32 | grouped rows whose method is neither 'Physical' nor 'Remote' do not affect the chart |
| Chart.CellsNonNegative | backend/controllers/chartController.js:25-28 | counts from `COUNT(*)` give non-negative cells |
| Chart.PhysicalScansNeverCounted | backend/controllers/chartController.js:25-28 | as written: when the log's method is 'PHYSICAL', the physical columns are all 0 |
| Chart.ServoCommandsNeverCounted | backend/controllers/chartController.js:25-28 | as written: when the log's method is 'REMOTE', as servo commands log it, the remote columns are all 0 |
| Chart.WeeklyStatsFolded | backend/controllers/chartController.js:21-32 | corrected: seven records in week order, with the method compared case-insensitively |
| Chart.FoldedIsCanonical | backend/controllers/chartController.js:21-32 | the corrected pivot equals the written pivot run over the rows with every spelling of the two methods renamed to the one the pivot looks for ('PHYSICAL' as 'Physical', 'REMOTE' as 'Remote'); this renaming is the model's own, since the database reports a stored spelling for each group |
| Chart.FoldedCountsPhysicalScans | backend/controllers/chartController.js:25-28 | a 'PHYSICAL' grant is counted by the corrected pivot and dropped by the written one |
| Chart.FoldedCountsServoCommands | backend/controllers/chartController.js:25-28 | a 'REMOTE' grant is counted by the corrected pivot and dropped by the written one |
| Reset.RequestPasswordReset | backend/controllers/resetController.js:4-20 | 400 exactly without a phone, 404 exactly for an unknown phone, 200 exactly for a known one; never writes |
| Reset.ResetPassword | backend/controllers/resetController.js:23-47 | 400 exactly without a phone or password, 404 exactly for an unknown phone; on 200 only passwords change, and exactly the rows with that phone get the new hash |
| Reset.ResetKeepsUnique | backend/controllers/resetController.js:37-41 | a password reset keeps finger ids and phones unique |
| Auth.LogFailedLogin | backend/controllers/authController.js:84-95 | one denied 'Remote' entry with no user and no finger, its action naming the phone and the reason |
| Auth.Login | backend/controllers/authController.js:5-82 | 400 exactly for missing credentials; 401 exactly for an unknown phone (logged once as 'Invalid phone') or a wrong password (logged once as 'Invalid password'); 403 exactly when the admin's session flag is set, with nothing changed; otherwise the user without password and a token for its id and phone, setting the flag of the admin only |
| Auth.LoginLogsFailures | backend/controllers/authController.js:8-39 | each 400 or 401 appends exactly one denied 'Remote' entry without a user; 200 and 403 leave the log alone |
| Auth.SingleAdminSession | backend/controllers/authController.js:43-63 | after the admin logs in, the same login is refused with 403 and changes nothing |
| Auth.StripBearerPrefix | backend/controllers/authenticate.js:6 | stripping "Bearer " from "Bearer t" yields `t` |
| Auth.StripBearerFirst | backend/controllers/authenticate.js:6 | a header without "Bearer " is kept whole; otherwise exactly its first "Bearer " is cut out |
| Auth.Authenticate | backend/controllers/authenticate.js:4-50 | every refusal is 401; the request proceeds exactly when a non-empty token verifies to the id of a stored user other than a logged-out admin, and then carries that user's row |
| Auth.LoginTokenPassesGate | backend/controllers/authenticate.js:15-42 | the token a successful login issues passes the gate on the database the login leaves |
| Auth.LogoutAsWritten | backend/controllers/authController.js:97-118 | as written: the logout answers 500 and clears nothing |
| Auth.Logout | backend/controllers/authController.js:102-105 | corrected: clears the session flag on exactly the caller's admin rows and changes nothing else |
| Auth.AdminLockedOut | backend/controllers/authController.js:99 | as written: after one admin login, the admin is refused (403) even after logging out |
| Auth.LogoutReopensSession | backend/controllers/authController.js:97-118 | with the corrected logout, the admin can log in, log out and log in again |
| Auth.ResetThenLogin | backend/controllers/resetController.js:37-41 | after a successful reset, logging in with the new password is never refused for bad credentials |
| Gps.InsertGps | backend/controllers/gpsController.js:3-30 | 400 exactly when a coordinate is absent or zero, changing nothing; otherwise 201, one new fix with `is_alert` defaulting to 0 and one `gps_update` event |
| Gps.GetLatestGps | backend/controllers/gpsController.js:32-61 | 404 with the zero default exactly on an empty table, otherwise the fix with the greatest id; never writes |
| Gps.InsertThenLatest | backend/controllers/gpsController.js:3-61 | a stored fix is what the next location read reports |
| Gps.HandleAlert | backend/controllers/gpsController.js:63-92 | 201, one fix flagged 1, one alert row with the same coordinates, one `alert` event echoing the body |
| Gps.AlertThenLatest | backend/controllers/gpsController.js:63-92 | after an alert the latest fix is flagged |
| Gps.GetSafeZoneSettings | backend/controllers/gpsController.js:94-105 | the first settings row, or radius 0.05 and drift 0.01 when there is none |
| Gps.UpdateSafeZoneSettings | backend/controllers/gpsController.js:107-125 | the upsert replaces the colliding row in place or appends one, leaving every other row |
| Gps.SettingsReadBack | backend/controllers/gpsController.js:94-125 | saved settings read back when they land in the first row, and otherwise the read is unchanged |
| Servo.UpdateServoAngle | backend/controllers/servoController.js:12-48 | 400 exactly for a non-integer angle or user id, 500 exactly when the device fails (both change nothing); otherwise the angle is set, then 404 for an unknown user, or 200 with one 'REMOTE' granted entry and a message naming the user |
| Servo.GetServoStatus | backend/controllers/servoController.js:50-52 | reports the remembered angle; never writes |
| Servo.StatusAfterCommand | backend/controllers/servoController.js:10-52 | after a command that passed validation and reached the device, the status reports the commanded angle even when the user is unknown; otherwise the status is unchanged |
| Servo.LoggedAngleReadsBack | backend/controllers/servoController.js:34-37 | the logged action text carries the commanded angle, which reads back as the same integer |
| Track.OnEvent | frontend/src/pages/Track.jsx:102-137 | an `alert` event raises the alarm and heads the list with the alert, keeping the marker and its time; a `gps_update` moves the marker and stamps it, keeps the list, and alarms exactly when its flag is truthy |
| Track.OnAlert | frontend/src/pages/Track.jsx:102-125 | an `alert` event switches on alert mode and puts the new alert in front of at most nine older ones |
| Track.AlertListKeepsNewest | frontend/src/pages/Track.jsx:116-124 | after any run of alerts the list is the ten newest alerts, newest first |
| Track.OnGpsUpdate | frontend/src/pages/Track.jsx:127-137 | alert mode follows the event's flag; the position and time are taken from the event; the status becomes live only for an unflagged fix |
| Track.Poll | frontend/src/pages/Track.jsx:146-171 | a failed request keeps the position and marks it stale; a reply with both coordinates moves the marker, stamps it with the reply's timestamp (the current time when that is 0), sets alert mode and status from its flag, and changes nothing else but the real-time, error and loading flags; any other reply changes only the loading flag |
| Track.PollStore | frontend/src/pages/Track.jsx:146-171 | polling the server: an empty fix table marks the position stale and changes nothing else but the flags; otherwise the page takes in a fix with the greatest id |
| Track.PollEmptyStore | frontend/src/pages/Track.jsx:163-167 | on an empty GPS table (404) the marker stays and the view is not real-time |
| Track.PollAfterInsert | frontend/src/pages/Track.jsx:146-161 | a poll after a stored fix shows that fix, real-time, alarmed exactly when its flag is truthy |
| Track.Acknowledge | frontend/src/pages/Track.jsx:211-215 | acknowledging clears alert mode and shows live tracking, nothing else changes |
| Track.GpsEventShowsFix | frontend/src/pages/Track.jsx:127-137 | the `gps_update` a stored fix broadcasts moves the marker to it, stamps it with the insertion time, alarms exactly when the stored flag is truthy, and keeps the alert list |
| Track.AlarmAfterAcknowledge | frontend/src/pages/Track.jsx:127-137 | an acknowledged alarm comes back with the next flagged fix |
| Track.LoadSettings | frontend/src/pages/Track.jsx:76-77 | loaded degrees are shown as metres at 111320 metres per degree |
| Track.SaveBody | frontend/src/pages/Track.jsx:176-177 | saved metres are sent as degrees at the same rate |
| Track.SettingsThroughServer | frontend/src/pages/Track.jsx:76-177 | settings saved and loaded again show the same metres when the table was empty or the save replaced its first row; otherwise the page shows the first row's settings again, whatever was saved |
| Notifications.PhoneInLeftmost | frontend/src/pages/Notifications.jsx:25-26 | the phone shown is the regular expression's leftmost match: none exactly when no "phone: " followed by a digit occurs, otherwise all the digits after the first such occurrence |
| Notifications.Message | frontend/src/pages/Notifications.jsx:20-28 | a 'PHYSICAL' entry reads "Fingerprint Denied at" its time; any other reads "Failed login attempt (" the matched phone, or 'unknown' without a match, ") at" its time |
| Notifications.FailedLoginPhoneShown | frontend/src/pages/Notifications.jsx:25-26 | for a phone that starts with a digit, the toast shows the phone a failed login logged, up to its first non-digit |
| Notifications.UnknownPhoneShown | frontend/src/pages/Notifications.jsx:25-26 | a logged phone that is absent or starts with a non-digit, such as "+254…", is shown as 'unknown' for each reason the login handler logs, provided it holds no 'p' |
| Notifications.LoginFailureMessage | frontend/src/pages/Notifications.jsx:20-28 | the toast for a logged login failure names the leading digits of the phone and the time |
| Notifications.ScanDenialMessage | frontend/src/pages/Notifications.jsx:20-23 | the toast for a recorded denied scan names only its time |
| Notifications.Announce | frontend/src/pages/Notifications.jsx:34-46 | every fetched id joins the seen set; toasts go only to ids not seen before, at most one per id, with the sound setting |
| Notifications.FetchDenials | frontend/src/pages/Notifications.jsx:30-52 | a failed fetch changes nothing; a successful one replaces the list, remembers its ids and raises distinct toasts only for new ids |
| Notifications.FetchAnnounces | frontend/src/pages/Notifications.jsx:34-46 | each new denial gets a toast, and each toast is a fetched denial's message |
| Notifications.NoRepeatToasts | frontend/src/pages/Notifications.jsx:35-36 | fetching the same list twice raises no toast the second time |
| Notifications.DeleteDenial | frontend/src/pages/Notifications.jsx:54-64 | a successful delete drops exactly that id from the list and the seen set; a failed one changes nothing |
| Notifications.DeletedStaysGone | frontend/src/pages/Notifications.jsx:54-58 | a denial deleted on the server does not reappear on the next fetch |
| HistoryPage.Request | frontend/src/pages/History.jsx:15-21 | each fetch asks for the current page and filter with ten rows |
| HistoryPage.Receive | frontend/src/pages/History.jsx:22-27 | a successful reply replaces the rows and the page count (null as 0), a failure changes nothing |
| HistoryPage.PageRequestsSucceed | frontend/src/pages/History.jsx:12-29 | every request the page sends is answered 200 with the page count of the filtered log |
| HistoryPage.NextPage | frontend/src/pages/History.jsx:40-42 | the page advances exactly when it is below the page count |
| HistoryPage.PrevPage | frontend/src/pages/History.jsx:44-46 | the page goes back exactly when it is above 1 |
| HistoryPage.FilterChange | frontend/src/pages/History.jsx:35-38 | a new filter restarts at page 1 |
| HistoryPage.PageNeverBelowOne | frontend/src/pages/History.jsx:35-46 | no sequence of actions moves the page below 1 |
| HistoryPage.Fields | frontend/src/pages/History.jsx:51-57 | five columns per row, a blank name as 'Unknown', a null status as "null" |
| HistoryPage.ExportCsv | frontend/src/pages/History.jsx:48-60 | the file opens with the header line, and is nothing else when no row is shown |
| HistoryPage.CsvLines | frontend/src/pages/History.jsx:48-60 | when no field holds a line break, the CSV splits into the header line and one quoted line per row, in order |
| FingerprintForm.Submit | frontend/src/pages/Fingerprint.jsx:28-66 | a form the browser rejects sends nothing; otherwise mismatched passwords send nothing, editing sends a PUT of the form without its confirmation, and a new user is posted exactly when a finger id is set |
| FingerprintForm.InvalidFormSendsNothing | frontend/src/pages/Fingerprint.jsx:232-287 | a blank name or phone, a blank password for a new user, or a password shorter than five characters is stopped before the handler runs |
| FingerprintForm.NextFingerId | frontend/src/pages/Fingerprint.jsx:82-91 | the next slot is the latest finger id plus one, or 1 when there is none |
| FingerprintForm.LoadNextFinger | frontend/src/pages/Fingerprint.jsx:82-91 | a failed fetch leaves the page as it was; a successful one changes only the form's finger id |
| FingerprintForm.LoadedSlotIsFree | frontend/src/pages/Fingerprint.jsx:82-91 | the slot loaded from the server's `/latest` is held by no user, and nothing else on the page changes |
| FingerprintForm.NextFingerIsFree | backend/controllers/userController.js:45-55 | the slot the page proposes is held by no user |
| FingerprintForm.FreshFormRegisters | frontend/src/pages/Fingerprint.jsx:47-56 | a complete new-user form with the proposed slot, a password of at least five characters and a new phone registers (201) |
| FingerprintForm.ResetForm | frontend/src/pages/Fingerprint.jsx:68-80 | a reset clears every field and leaves edit mode |
| FingerprintForm.ShowFound | frontend/src/pages/Fingerprint.jsx:93-122 | a found user fills the form with its fields, empty passwords, in edit mode |
| FingerprintForm.EditRoundTrip | frontend/src/pages/Fingerprint.jsx:93-122 | a user found by phone and submitted unchanged is sent as a PUT to its own finger id, which the server never answers 404 and, with unique phones and finger ids, answers 200 |
| FingerprintForm.UpdateFindsShownUser | backend/controllers/userController.js:94-141 | an update addressed by the finger id of a user found by phone is never 404, and is 200 when phones and finger ids are unique |
| FingerprintForm.DeleteRequest | frontend/src/pages/Fingerprint.jsx:124-142 | a DELETE is sent exactly when editing with a finger id |
| FingerprintForm.EnrollRequest | frontend/src/pages/Fingerprint.jsx:144-170 | enrolment is refused while editing and otherwise asks the device for the form's current slot |
| FingerprintForm.ResetBlocksRequests | frontend/src/pages/Fingerprint.jsx:68-80 | right after a reset, submit, delete and enrol send nothing |

## Left out

- Database failures: each handler's `catch` answers 500, and only the deterministic cases are modelled (the missing bcrypt import and a negative LIMIT or OFFSET).
- Connection pools, transactions and concurrent requests: requests are applied one at a time.
- Password hashing and JWT signing: bcrypt becomes the ideal `Hash(secret)`. Token verification is the parameter `verify`, whose `None` stands for a thrown error. Token expiry is not modelled.
- Clocks and date arithmetic: `NOW()`, the 'today'/'week'/'month' windows and `toLocaleString` are the parameters `now`, `inPeriod` and `format`.
- The servo's HTTP call to the device is the flag `deviceOk`. The ESP32 enrolment reply is left out because only the request the page sends is modelled.
- Socket.IO: each emitted event is appended to `db.events`, and delivery to pages is the function `Track.OnEvent`.
- Toast display, durations and the alert sound are left out. Only the toasts raised and their sound flag are kept.
- The Track page's haversine distance, map rendering and one-second clock are display only.
- `Track.LoadSettings`, `Track.SaveBody`: the unit conversion is stated over exact reals, not IEEE doubles.
- Unique keys of `safe_zone_settings` are not part of the source. The row an upsert collides with is the parameter `clash`.
- `Denials.GetLatestDenials`, `Fingerprints.GetLatestPhysicalDenials`: the case-insensitive collation is modelled as ASCII case folding of `access_logs.status` and `method`. Accent folding and trailing-space padding are not modelled. Phones in the `users` table are compared exactly.
- Schema defaults for `is_active`, `is_admin` and `is_logged_in` on registration are not part of the source. New users are taken as active, not admin and not logged in.
- `updated_at` columns and the ordering of rows with equal timestamps: ties put the later-inserted row first.
- `Number()`/`isNaN` on text accept plain decimal digits with an optional '+' or '-' sign. Whitespace, exponents, hex and fractions are not parsed.
- `Users.FingerKey`: an id with surrounding whitespace, a fraction, an exponent or a hex prefix is read as NaN and refused with 400, though JavaScript accepts it.
- JSON bodies: non-integral numbers are not represented, and text fields are taken to be strings. A non-string field, such as a numeric password on which `trim()` throws and the handler answers 500, is not modelled.
- `Notifications.UnknownPhoneShown`: phones holding a 'p' are not covered, since the "phone: " search could start inside them.
- MySQL numbers are read exactly. A double's rounding above 2^53 and overflow of huge exponents are not modelled.
- `Js.SqlStored`: a string is stored as MySQL's non-strict mode stores it. The server's `sql_mode` is not part of the source; in strict mode a finger id with trailing text is refused, and `recordDenial` then logs the error and stores nothing.
- `Denials.DeleteDenialById`, `Denials.DeleteIgnoresTrailingText`, `Fingerprints.RegisterFingerprintUpsert`: the WHERE comparison of a DELETE or UPDATE follows the non-strict `sql_mode`, where a string with trailing or non-numeric text is read with a warning. In strict mode (MySQL's default since 5.7) that warning is an error, so a path such as "7abc" or "abc" answers 500 instead of deleting entry 7 or answering 404, and the upsert's UPDATE of a finger id such as "7abc" answers 500. SELECT comparisons only warn in either mode, so `Fingerprints.ValidateFingerprint` is unaffected.
- `Gps.InsertThenLatest`, `Track.PollAfterInsert`: the read-back takes the stored columns to keep the posted values. The column types are not part of the source, so a TINYINT `is_alert` turning "0" into 0, or DECIMAL coordinates coming back as strings, is not modelled.
- `Servo.LoggedAngleReadsBack`, `Servo.UpdateServoAngle`: JavaScript numbers are unbounded integers here. From 10^21 up, `${n}` renders with an exponent, and integers above 2^53 lose precision; neither is modelled.
- `AccessHistory.GetAccessHistory`: `page` and `limit` are taken as integers. A query string such as "abc" (NaN, then a failed query and 500) or "1.5" (a fractional offset cut by `parseInt`) is not modelled.
- `FingerprintForm.Submit`: `minLength` counts UTF-16 code units and applies only to values the user typed; the model counts characters.
- `AccessHistory.ExportRecords`: its own contract gives only the record count. The ordering and the provenance of every record are stated separately in `AccessHistory.ExportIsSelection`.
- `Chart.WeeklyStatsFolded`: its own contract gives only the shape of the week. Its cells are stated in `Chart.FoldedIsCanonical`, and concrete counts in `Chart.FoldedCountsPhysicalScans` and `Chart.FoldedCountsServoCommands`.
- `FingerprintForm.ResetForm`: the finger-id re-fetch that follows a reset is the separate step `FingerprintForm.LoadNextFinger`.
- `FingerprintForm.EnrollRequest`: the page awaits `fetchLatestFingerId` but reads the old `form` value. The model therefore uses the slot shown before the fetch.
- Routes, CORS, the phone controller and the remaining pages are outside this model.

## Findings

| source | as written | input that shows it | evidently intended | confidence | as-written member | corrected member |
|---|---|---|---|---|---|---|
| backend/controllers/chartController.js:25-28 | the pivot looks up methods 'Physical' and 'Remote' case-sensitively, while every scan is logged as 'PHYSICAL' (fingerprintController.js:121-125) | one grouped row ('Monday', 'PHYSICAL', 'granted', 3) | the Monday physical-granted cell is 3 | not executed | Chart.PhysicalScansNeverCounted | Chart.FoldedCountsPhysicalScans |
| backend/controllers/chartController.js:25-28 | the Remote columns are looked up as 'Remote', while every servo command is logged as 'REMOTE' (servoController.js:35) | one grouped row ('Monday', 'REMOTE', 'granted', 2) | the Monday remote-granted cell is 2 | not executed | Chart.ServoCommandsNeverCounted | Chart.FoldedCountsServoCommands |
| backend/controllers/authController.js:99 | logout binds `req.user.userId`, but `authenticate` stores the users row, whose key is `id` (authenticate.js:40), so the bound value is undefined and the update fails | admin logs in, then POSTs logout | the admin's session flag is cleared and a new login succeeds | not executed | Auth.AdminLockedOut | Auth.LogoutReopensSession |
| backend/controllers/fingerprintController.js:53 | `bcrypt.hash` is called while the bcrypt import on line 2 is commented out, so every complete registration throws | any body with all five fields | the user is inserted or updated with the hashed password | not executed | Fingerprints.RegistrationNeverStored | Fingerprints.RegisterFingerprintUpsert |
