# Attend backend: attendance verification and overrides, in Dafny

This project models the attendance pipeline of the Attend backend, a Node/Express and
Mongoose service. A student marks attendance for a lecture session from a phone. The
request is checked step by step:

- the required fields are present;
- the selfie is a base64 image data URL;
- the session exists, is active and has not ended;
- the student has not already marked it (a check that compares a field the schema does not
  store; see "Findings");
- the phone's coordinates lie inside the classroom polygon (an even-odd ray cast);
- the phone's device id is not bound to another student.

When a device is held by someone else, the student can request an override. The session's
lecturer approves or denies it, and an approval appends the attendance entry. The same chain
also runs as a queue job. That job records a JobResult for every outcome and publishes a live
event on success.

The model keeps each Mongoose collection as a sequence held in a class. `findOne` and
`findById` return the first match. Each `await` is one method call that changes the
collection it names. The clock is a parameter `now` in milliseconds, and coordinates are
`real`.

Each handler has two parts:

- a pure effect function (`MarkAttendanceEffect`, `MarkJobEffect`, `ExtractDataEffect`,
  `Decide`, …) stating what the handler answers and what it leaves in every store;
- a method performing the store operations in the handler's order, whose `ensures` ties its
  result and the new store contents to that function.

The properties are proved about the effect functions.

Modules:

| module | file | models |
|---|---|---|
| `Common` | common.dfy | error kinds (status and message), `Result`, joining, decimal rendering |
| `JsValues` | js_values.dfy | JavaScript values and truthiness, for the request bodies |
| `RequiredFields` | required_fields.dfy | src/utils/validateRequiredFields.js and src/utils/global/validate_required_fields_util.js |
| `Models` | models.dfy | the user, session, override-request and job-result schemas |
| `Stores` | stores.dfy | the collections and their store operations; JobResult's unique jobId |
| `AttendanceUtils` | attendance_utils.dfy | src/utils/attendanceUtils.js |
| `MarkAttendanceUtil` | mark_attendance_util.dfy | src/utils/student/mark_attendance_util.js |
| `StudentController` | student_controller.dfy | src/controllers/student.controller.js |
| `LecturerController` | lecturer_controller.dfy | src/controllers/lecturer.controller.js |
| `Workers` | workers.dfy | src/queues/workers.js |

Where the code and the schemas disagree, the model follows the code:

- Attendance entries and override requests carry a `matricNumber` that their schemas do not
  declare. The controllers write and query it, and the model keeps it.
- The extract-data handler writes `programme` and `isActivated` to users. The user schema
  lacks these fields, and the model stores them anyway.

Under Mongoose's default strict mode, none of these undeclared fields would be saved. For the
two `matricNumber` fields this defeats the duplicate checks; it is recorded under "Findings",
with `Models.StoredSession` and `Models.StoredRequests` modelling what is actually saved. The
rest of the model keeps the fields, as the code evidently intends.

## Model

| member | source | states |
|---|---|---|
| RequiredFields.MissingFields | src/utils/validateRequiredFields.js:4 | a field is reported missing exactly when it is listed and its value is falsy (0, '', false, null, undefined or absent) |
| RequiredFields.MissingFieldsKeepOrder | src/utils/validateRequiredFields.js:4-7 | missing fields are reported in field-list order: the result for a concatenated list is the concatenation of the results |
| RequiredFields.NothingMissingWhenAllTruthy | src/utils/validateRequiredFields.js:4-5 | a list whose every value is truthy reports nothing |
| RequiredFields.ValidateRequiredFields | src/utils/validateRequiredFields.js:3-10 | passes iff every listed field is truthy; otherwise BadRequest "Missing required fields: " followed by the missing names joined by ", " |
| RequiredFields.ValidateRequiredFieldsUtil | src/utils/global/validate_required_fields_util.js:3-10 | the same iff; the message prefix has a leading space |
| RequiredFields.FirstMissingNamedFirst | src/utils/validateRequiredFields.js:6-8 | a failure's message starts with the prefix followed by the first missing field |
| RequiredFields.LatitudeZeroIsMissing | src/utils/validateRequiredFields.js:4 | a latitude of 0 fails with "Missing required fields: latitude" |
| Models.NormalizeMatricIdempotent | src/models/user.model.js:26-32 | storing an already stored (trimmed, upper-cased) matric number leaves it unchanged |
| Models.NormalizeEmailIdempotent | src/models/user.model.js:18-25 | the same for the trimmed, lower-cased email |
| Models.EmailPatternExamples | src/models/user.model.js:24 | `.+@.+\..+` accepts a plain address and rejects one without a dot after the '@' |
| Models.StoredSession | src/models/attendanceSession.model.js:27-46 | strict mode saves every entry without its matric number and changes nothing else; validity is unaffected |
| Models.StoredRequests | src/models/overrideRequest.model.js:3-42 | strict mode saves every request without its matric number |
| Stores.FirstMatch | src/utils/attendanceUtils.js:25-27 | `findOne` returns the first document satisfying the filter, or none when no document does |
| Stores.WithDevice | src/utils/attendanceUtils.js:30 | `updateOne({matricNumber}, {deviceId})` sets the device of the first user with that matric number and changes nothing else |
| Stores.UserStore.SetDeviceByMatric | src/utils/attendanceUtils.js:30 | the store after the update is `WithDevice` of the store before |
| Stores.UserStore.SetSelectedCourses | src/controllers/student.controller.js:264-265 | only the student's selectedCourses changes, to the given list |
| Stores.UserStore.ApplyExtracted | src/queues/workers.js:64-74 | the update is refused exactly when another user holds the matric number; otherwise the store becomes `Activated` |
| Stores.Activated | src/queues/workers.js:64-74 | only the addressed user changes: matric number, name, programme, level, and isActivated = true |
| Stores.SessionStore.Insert | src/controllers/lecturer.controller.js:13-21 | a session is appended iff the schema accepts it |
| Stores.SessionStore.Save | src/controllers/student.controller.js:148 | a session replaces the stored one iff the schema accepts it |
| Stores.OverrideStore.Create | src/controllers/student.controller.js:210-218 | a request is appended iff the schema accepts it (both owner snapshots present) |
| Stores.OverrideStore.Save | src/controllers/lecturer.controller.js:175-178 | the request at that position is replaced |
| Stores.JobResultStore.Create | src/models/jobResult.model.js:5-17 | a result is appended iff its type is in the enum, its required fields are set and its jobId is new |
| Stores.CreatePreservesUniqueJobIds | src/models/jobResult.model.js:5 | an accepted create keeps job ids unique |
| Stores.SecondCreateRefused | src/models/jobResult.model.js:5 | after a create for a job, any further create for that job is refused |
| Stores.AddToSet | src/controllers/student.controller.js:267-270 | `$addToSet` leaves x in the list, adds nothing else, keeps the old list as a prefix and adds at most one element |
| Stores.AddToSetNoDuplicates | src/controllers/student.controller.js:267-270 | `$addToSet` keeps a duplicate-free list duplicate-free |
| Stores.EnrollInListed | src/controllers/student.controller.js:267-270 | every listed course gains the student as a set member; unlisted courses are unchanged |
| Stores.CourseStore.AddStudentToCourses | src/controllers/student.controller.js:267-270 | the store after `updateMany` is `EnrollInListed` of the store before |
| Stores.EventChannel.Publish | src/queues/workers.js:253-262 | exactly one publication is appended |
| AttendanceUtils.CrossingEdgeHasDistinctLatitudes | src/utils/attendanceUtils.js:9-14 | an edge that passes the straddle test has distinct latitudes, so the divisor is never zero |
| AttendanceUtils.Crossings | src/utils/attendanceUtils.js:7-18 | the number of crossing edges among the first upTo (corner i paired with i − 1, corner 0 with the last) is at most upTo |
| AttendanceUtils.CheckGeofence | src/utils/attendanceUtils.js:4-21 | the loop's result is true iff an odd number of edges pass the crossing test; it writes nothing |
| AttendanceUtils.NoCrossingsOnOneSide | src/utils/attendanceUtils.js:9 | when every corner is at or south of the point, no edge crosses |
| AttendanceUtils.OutsideLatitudeRangeIsOutside | src/utils/attendanceUtils.js:9 | a point at or north of every corner, or south of every corner, is outside |
| AttendanceUtils.RectangleExamples | src/utils/attendanceUtils.js:4-21 | for any rectangle, the centre is inside and a point on the northern side is outside |
| AttendanceUtils.DeviceDecision | src/utils/attendanceUtils.js:23-45 | accepted iff no user holds the device or its first holder has the caller's matric number; otherwise rejected with that holder's matric number and name |
| AttendanceUtils.AfterDeviceValidation | src/utils/attendanceUtils.js:29-32 | a held device writes nothing; a free device is bound to the caller |
| AttendanceUtils.DeviceValidationKeepsProfiles | src/utils/attendanceUtils.js:30 | validation changes only deviceId fields, so every lookup by id gives the same position |
| AttendanceUtils.RevalidationAccepts | src/utils/attendanceUtils.js:23-36 | a device accepted for an existing student is accepted again for that student, with no further write |
| AttendanceUtils.DecisionMatchesHolder | src/utils/attendanceUtils.js:25-45 | with devices exclusive, rejected iff some other user holds the device |
| AttendanceUtils.DeviceValidationKeepsExclusive | src/utils/attendanceUtils.js:29-31 | auto-binding keeps each device held by at most one user |
| AttendanceUtils.RebindReleasesPreviousDevice | src/utils/attendanceUtils.js:29-32 | binding a free device overwrites the caller's previous device, which then has no holder |
| AttendanceUtils.HandleDeviceValidation | src/utils/attendanceUtils.js:23-50 | the verdict is `DeviceDecision` and the new store is `AfterDeviceValidation` |
| AttendanceUtils.FetchOriginalOwner | src/utils/attendanceUtils.js:52-77 | a failed lookup gives success false with "Error Fetching Original device owner"; otherwise success, with the holder's matric number, name and selfie iff someone holds the device |
| MarkAttendanceUtil.UtilCrossings | src/utils/student/mark_attendance_util.js:48-64 | the crossing count of the variant test is at most the number of edges examined |
| MarkAttendanceUtil.UtilInterceptSimplifies | src/utils/student/mark_attendance_util.js:60 | the line-60 bound equals xi + (longitude − yi) |
| MarkAttendanceUtil.CheckGeofenceUtil | src/utils/student/mark_attendance_util.js:4-73 | errors in order: invalid coordinates, not exactly 4 corners, the first invalid corner's index; otherwise true iff the variant crossing count is odd |
| MarkAttendanceUtil.UtilAxisParallelNoCrossings | src/utils/student/mark_attendance_util.js:56-60 | on a polygon whose edges are all axis-parallel, no edge passes the variant test |
| MarkAttendanceUtil.UtilRejectsRectangleCentre | src/utils/student/mark_attendance_util.js:48-72 | as written: for every rectangle, the corners pass validation, checkGeofence reports the centre inside and checkGeofenceUtil reports it outside |
| MarkAttendanceUtil.IntendedUtilCrossings | src/utils/student/mark_attendance_util.js:48-64 | corrected: the crossing count with the longitude difference as divisor is at most the number of edges |
| MarkAttendanceUtil.IntendedUtilCrossingsMatchSwapped | src/utils/student/mark_attendance_util.js:48-64 | corrected: the count equals checkGeofence's count with latitude and longitude exchanged |
| MarkAttendanceUtil.IntendedUtilInsideAgrees | src/utils/student/mark_attendance_util.js:48-72 | corrected: the result is checkGeofence's even-odd rule with the axes exchanged |
| MarkAttendanceUtil.IntendedUtilAcceptsRectangleCentre | src/utils/student/mark_attendance_util.js:48-72 | corrected: every rectangle's centre is inside |
| MarkAttendanceUtil.HandleDeviceValidationUtil | src/utils/student/mark_attendance_util.js:75-133 | invalid matric → BadRequest; unknown student → "Error validating device: Student not found"; then conflict (only for a truthy device held by another matric, with matric, name and selfie) → requires-selfie → already-registered → requires-device-change; it writes nothing |
| MarkAttendanceUtil.UtilConflictAgreesWithAutoBind | src/utils/student/mark_attendance_util.js:89-108 | with devices exclusive, the util reports a conflict exactly when the auto-bind validator rejects |
| MarkAttendanceUtil.AlreadyRegisteredMeansNoRebind | src/utils/student/mark_attendance_util.js:119-122 | an already-registered device is accepted by the auto-bind validator without a write |
| MarkAttendanceUtil.FetchOriginalOwnerUtil | src/utils/student/mark_attendance_util.js:135-171 | a non-string or empty deviceId is refused; otherwise a holder is reported iff one exists, with deviceId and id |
| MarkAttendanceUtil.OwnerLookupsAgree | src/utils/student/mark_attendance_util.js:135-171 | both owner lookups find the same holder |
| StudentController.SelfieUrlAccepted | src/controllers/student.controller.js:64-67 | every "data:image/(jpeg\|png\|jpg);base64," URL with a non-empty base64-alphabet payload passes |
| StudentController.ValidSelfieDecomposes | src/controllers/student.controller.js:64-67 | every passing string is such a URL, with nothing before or after |
| StudentController.SelfieExamples | src/controllers/student.controller.js:64-67 | a payload of padding alone passes; an empty payload or a gif does not |
| StudentController.Split | src/controllers/student.controller.js:28-31 | at least one piece; no piece contains the separator |
| StudentController.SplitJoinRoundTrip | src/controllers/student.controller.js:28-31 | joining the pieces with the separator gives the text back |
| StudentController.DashboardSessions | src/controllers/student.controller.js:33-37 | exactly the active sessions ending after now (in the chosen courses, if any were named) |
| StudentController.TimeRemaining | src/controllers/student.controller.js:49-52 | the whole minutes until endTime (floor), and 0 once it has passed |
| StudentController.GetDashboard | src/controllers/student.controller.js:23-62 | one entry per listed session, in order, with its attendee count and remaining minutes |
| StudentController.DashboardShowsEveryOpenSession | src/controllers/student.controller.js:33-54 | every qualifying session has an entry |
| StudentController.DashboardTimeIsWholeMinutesLeft | src/controllers/student.controller.js:49-52 | a listed session ends after now, and its time m is the exact floor of the minutes left: m · 60000 ≤ endTime − now < (m + 1) · 60000 |
| StudentController.SessionChecks | src/controllers/student.controller.js:92-125 | session missing → 404; not open → closed; already marked → duplicate; location missing → null dereference; outside → error; otherwise the session's position |
| StudentController.AppendAttendee | src/controllers/student.controller.js:140-146 | the push adds one entry at the end and changes nothing else |
| StudentController.AppendMarks | src/controllers/student.controller.js:106-114 | intended storage: after the push, the duplicate check finds the matric number |
| StudentController.MarkAttendanceChecks | src/controllers/student.controller.js:74-125 | the required-field and selfie checks come first, then the session checks |
| StudentController.MarkAttendanceEffect | src/controllers/student.controller.js:69-163 | markAttendance never changes the number of sessions or users |
| StudentController.MarkAttendance | src/controllers/student.controller.js:69-163 | the answer and the new stores are `MarkAttendanceEffect` of the old stores |
| StudentController.MarkAttendanceAppendsOne | src/controllers/student.controller.js:140-157 | on success, only the requested session changes: it gains exactly one entry for the matric number, and attendeeCount = previous length + 1 |
| StudentController.MarkAttendanceLateFailures | src/controllers/student.controller.js:127-138 | a device held by another student → 400 with the holder's details and nothing written; an accepted device whose student is not found → 404 "Student not found with this matric number", sessions unchanged and only the device binding kept |
| StudentController.MarkAttendanceFailureKeepsSessions | src/controllers/student.controller.js:74-138 | a failed check writes nothing; any failure other than the post-save dereference leaves sessions unchanged |
| StudentController.RepeatMarkFails | src/controllers/student.controller.js:106-114 | intended storage: after a successful mark, a second mark for the same session and matric fails with "Attendance already marked…" and writes nothing |
| StudentController.StrictModeRepeatMarkAccepted | src/controllers/student.controller.js:106-157 | as stored under strict mode: the same request repeated while the session is open succeeds again, and attendeeCount is the original length + 2 |
| StudentController.SessionOpenUntilEndTime | src/controllers/student.controller.js:102-104 | an active session is open at endTime and closed one millisecond later |
| StudentController.RequestOverrideChecks | src/controllers/student.controller.js:165-218 | the checks in order, each with its answer: missing fields → 400 naming them; no session → 404; ended or inactive → 400 "Session has ended, cannot request override"; a pending request for (session, matric) → 400 "Override request already submitted…"; no student → 404; a failed owner lookup → 500 "Error fetching original device owner"; success iff all pass, and the new request is pending, names the session's lecturer and carries the holder's matric number and selfie |
| StudentController.RequestOverride | src/controllers/student.controller.js:165-232 | a failed check writes nothing; otherwise exactly the checked request is appended iff the schema accepts it |
| StudentController.UnheldDeviceCannotBeOverridden | src/controllers/student.controller.js:202-218 | a request for a device nobody holds fails schema validation |
| StudentController.SecondOverrideRequestRefused | src/controllers/student.controller.js:185-195 | intended storage: after a request is stored, the next one for that session and matric is refused |
| StudentController.StrictModeSecondOverrideAccepted | src/controllers/student.controller.js:185-195 | as stored under strict mode: the pending-request query never matches, so the same request is accepted again and yields a second pending request, identical but for its id |
| StudentController.EnrollInCourses | src/controllers/student.controller.js:250-283 | checks in order; on success selectedCourses becomes the given list and each listed course gains the student; on failure nothing changes |
| StudentController.EnrollKeepsStudentSets | src/controllers/student.controller.js:267-270 | course student lists stay duplicate-free, and each listed course contains the student |
| LecturerController.CreateSession | src/controllers/lecturer.controller.js:5-30 | a falsy field → 400 "All fields are required."; otherwise one active session with no attendees is inserted; the 500 answer for a refused insert is unreachable in the model (see `NewSessionOpenUntilEnd`), since casts and database failures are left out |
| LecturerController.NewSessionOpenUntilEnd | src/models/attendanceSession.model.js:48-55 | a new session, active by default, takes attendance iff now ≤ endTime; a request with every field present always yields a document the schema accepts |
| LecturerController.LiveEntries | src/controllers/lecturer.controller.js:60-65 | one row per entry, in entry order, with the student's name and level |
| LecturerController.GetLiveAttendance | src/controllers/lecturer.controller.js:39-72 | empty id → 400; missing → 404; not active → 400; a missing student → 500; otherwise `LiveEntries` |
| LecturerController.LiveListGrowsWithMark | src/controllers/lecturer.controller.js:60-65 | after a successful mark, the live list is the old list plus one row, with that matric number and time |
| LecturerController.GetComparison | src/controllers/lecturer.controller.js:79-106 | empty id → 400; missing session → 404 "Session not found"; missing course → 404 "Course not found"; otherwise totalMarked = number of entries and totalRegistered = course students, with the "<marked>/<registered> students have been marked for this session" message |
| LecturerController.ComparisonMessageReadsBack | src/controllers/lecturer.controller.js:104 | the two counts can be parsed back from the message |
| LecturerController.MarkIncrementsComparison | src/controllers/lecturer.controller.js:96-105 | a successful mark raises totalMarked by one and leaves totalRegistered unchanged |
| LecturerController.RequestsForSession | src/controllers/lecturer.controller.js:128-130 | exactly the requests of that session |
| LecturerController.GetOverrideRequests | src/controllers/lecturer.controller.js:120-145 | empty id → 400; 404 iff the session has no requests; otherwise its requests in store order |
| LecturerController.CreatedRequestListed | src/controllers/lecturer.controller.js:128-138 | a stored request appears in its session's list |
| LecturerController.Decide | src/controllers/lecturer.controller.js:168-178 | a non-pending request → 400 "Override request has already been <status>"; otherwise only status, lecturerId and decisionTimestamp change |
| LecturerController.DecidedAtMostOnce | src/controllers/lecturer.controller.js:234-244 | a decided request refuses any second decision and names the first |
| LecturerController.OverrideAttendee | src/controllers/lecturer.controller.js:191-197 | the entry carries the request's student and selfie, timestamp = createdAt, and the student's device or 'override-approved' |
| LecturerController.ApproveOverride | src/controllers/lecturer.controller.js:152-218 | the approval is saved before the session lookup, so a missing session or student leaves it approved with no entry; the entry is appended without duplicate or open checks |
| LecturerController.ApprovalCanDuplicate | src/controllers/lecturer.controller.js:180-199 | approving for a student who already has an entry in the session (by studentId, which the schema stores) records that student twice |
| LecturerController.DenyOverride | src/controllers/lecturer.controller.js:220-259 | the result is `Decide` with denied, and only the request changes |
| Workers.AfterFailedCreate | src/queues/workers.js:131-138 | a refused create throws its own error and stores nothing; an accepted one stores the document, and then the handler's error is thrown |
| Workers.RecordFailure | src/queues/workers.js:131-138 | the error thrown and the results left are `AfterFailedCreate` |
| Workers.FailedCreateKeepsUniqueJobIds | src/models/jobResult.model.js:5 | recording a failure keeps job ids unique |
| Workers.ExtractDataEffect | src/queues/workers.js:40-100 | success only with complete OCR data, returned unchanged; at most two results are written |
| Workers.CatchExtractFailure | src/queues/workers.js:86-99 | the catch block records one failed result with the caught message and rethrows |
| Workers.HandleExtractData | src/queues/workers.js:40-100 | the answer and the new stores are `ExtractDataEffect` of the old stores |
| Workers.IncompleteDataRecordedOnce | src/queues/workers.js:44-99 | incomplete data stores one failed result; the catch block's second create is refused, so the job fails with the duplicate-key error |
| Workers.CompleteDataActivatesAccount | src/queues/workers.js:64-82 | complete data for a known user activates the account and stores one completed result |
| Workers.ExtractKeepsOneResultPerJob | src/queues/workers.js:40-100 | job ids stay unique |
| Workers.MarkFailedDoc | src/queues/workers.js:192-207 | a failed result carries the failure's message; a device conflict also carries {requiresOverride: true, conflictInfo} |
| Workers.MarkJobEffect | src/queues/workers.js:113-265 | the job never changes the number of sessions or users, and publishes at most one event |
| Workers.HandleMarkAttendance | src/queues/workers.js:113-265 | the answer and the new stores, results and publications are `MarkJobEffect` of the old ones |
| Workers.WorkerAgreesWithController | src/queues/workers.js:124-232 | once the controller's field and selfie checks pass, the job and the controller leave the same sessions and users, and a successful job returns the controller's receipt |
| Workers.MarkJobRecordsCheckFailure | src/queues/workers.js:124-186 | corrected type: each refused check stores exactly one failed result with its message and throws that error |
| Workers.MarkJobRecordsDeviceConflict | src/queues/workers.js:188-208 | corrected type: a device conflict throws the 400 conflict error and stores exactly one failed result with its message, the override hint and the holder; sessions, users and events unchanged |
| Workers.MarkJobRecordsMissingStudent | src/queues/workers.js:210-221 | corrected type: an accepted device whose student is not found stores exactly one failed result with the 404 message and throws that error; sessions and events unchanged |
| Workers.MarkJobSuccessRecordsAndPublishes | src/queues/workers.js:224-262 | corrected type: success appends one entry, stores one completed result with the new count, and publishes one event on "attendance:" + sessionId |
| Workers.WrittenMarkJobStoresNothing | src/queues/workers.js:130-246 | as written (type 'attendance'): no result is ever stored, nothing is published, and every job fails |
| Workers.WrittenMarkJobFailsAfterSaving | src/queues/workers.js:224-246 | as written: a job that passes every check still appends the entry, then fails with the validation error |
| Workers.MarkJobKeepsOneResultPerJob | src/queues/workers.js:113-265 | job ids stay unique |
| Workers.Delays | src/queues/workers.js:293 | the k-th wait is 2^(k+1) · 1000 ms |
| Workers.StartWorkers | src/queues/workers.js:32-299 | stops at the first successful attempt, after one alert per earlier failure; after five failures it exits with five alerts; the waits are the first four delays |
| Workers.RetrySchedule | src/queues/workers.js:289-296 | the waits are 2000, 4000, 8000 and 16000 ms, 30000 ms in all |

## Left out

- HTTP wiring: routes, middleware, Swagger and the response envelopes. A handler's answer is
  `Ok(value)` or `Err(error)`. The error carries the status and the message.
- The alternate schemas and controllers (src/models/student_model.js and the snake_case
  duplicates) are not part of this model. The Student lookups in mark_attendance_util.js read
  the same user sequence as the User lookups.
- Mongoose strict mode is modelled only for `matricNumber` on entries and requests, in the
  as-written lemmas of "Findings". A user's `programme` and `isActivated` would also be dropped
  on save; the model keeps them as the code writes them.
- StudentController.RepeatMarkFails: holds for the intended storage only. Under strict mode
  the saved entries carry no matric number and a repeat mark succeeds
  (`StrictModeRepeatMarkAccepted`).
- StudentController.AppendMarks: holds for the intended storage only. Under strict mode the push
  itself casts the entry to the attendee subschema and drops its matric number.
- StudentController.SecondOverrideRequestRefused: holds for the intended storage only. Under
  strict mode the pending-request query never matches (`StrictModeSecondOverrideAccepted`).
- LecturerController.LiveListGrowsWithMark: the new row's matric number is the one pushed.
  Under strict mode the live list reads `att.matricNumber` as undefined for every entry.
- Workers.CompleteDataActivatesAccount: the user schema declares neither `programme` nor
  `isActivated`, so under strict mode the update stores only the matric number, name and level;
  the lemma states the update as the code writes it.
- Models.ToUpper, Models.ToLower: map ASCII letters only. The schema's `uppercase` and
  `lowercase` setters use JavaScript's full Unicode case mapping ('ß' upper-cases to "SS"),
  so `NormalizeMatricIdempotent`, `NormalizeEmailIdempotent` and the matric comparisons are
  stated for ASCII-only normalisation.
- LecturerController.GetOverrideRequests: returns the stored requests. The source populates
  `studentId` with the student's name and matric number and `lecturerId` with the lecturer's
  name before answering; that response shape is not modelled.
- Store failures (a lost connection, a rejected query) are not modelled. The exceptions are
  `fetchOriginalOwner`'s lookup failure, passed in as a flag, and the validation and
  duplicate-key refusals of the stores.
- Query-side setters (upper-casing a matric number inside a filter) and ObjectId casts are not
  modelled, except the cast failure of a non-string course id in enrollInCourses.
- The clock: one `now` per handler call, where the source calls `new Date()` several times.
  Times are integers in milliseconds.
- Floating point: coordinates are exact reals, so rounding in the ray casts is not captured.
  Non-numeric and NaN coordinates appear only where checkGeofenceUtil tests for them.
- Push notifications, email, Redis, BullMQ, worker `run()`, the admin notification, the
  wall-clock waits and `process.exit` are left out:
  - a publish is an appended `Publication`;
  - the OCR step is an input (`ocr`);
  - `StartWorkers` takes whether each attempt succeeded and returns the waits instead of
    sleeping.
- Concurrency between requests is not modelled. Each handler runs alone against a snapshot of
  the stores.
- The OCR field extraction (regular expressions over recognised text) is left out. Only the
  completeness check on its result is modelled.

## Findings

| source | as written | input that shows it | evidently intended | confidence | as-written member | corrected member |
|---|---|---|---|---|---|---|
| src/utils/student/mark_attendance_util.js:59-60 | the edge test checks straddling on longitude, but its bound `((xj − xi)(longitude − yi))/(xj − xi) + xi` divides by the latitude difference, which reduces to xi + (longitude − yi) | any rectangle between two parallels and two meridians, with the point at its centre (for instance corners (0,0), (0,2), (2,2), (2,0) and point (1,1)): checkGeofence says inside, checkGeofenceUtil says outside | divide by the longitude difference `(yj − yi)` and skip edges of equal longitude, i.e. checkGeofence's rule with the axes exchanged | high; not executed | MarkAttendanceUtil.UtilRejectsRectangleCentre | MarkAttendanceUtil.IntendedUtilInsideAgrees, MarkAttendanceUtil.IntendedUtilAcceptsRectangleCentre |
| src/queues/workers.js:134 | every mark-attendance JobResult is created with type 'attendance', which the enum at src/models/jobResult.model.js:13 does not contain, so every create fails validation | any mark-attendance job: its first JobResult.create throws the validation error; on the success path this happens after the entry is saved and before the event is published | type 'mark-attendance' | high; not executed | Workers.WrittenMarkJobStoresNothing | Workers.MarkJobSuccessRecordsAndPublishes |
| src/controllers/student.controller.js:106-108 | the duplicate check compares `attendee.matricNumber`, but the attendee subschema (src/models/attendanceSession.model.js:27-46) declares no matricNumber and strict mode is left on, so the pushed value is never saved and the check never matches; workers.js:152-154 has the same check | a student marks an open session and then sends the same request again: the second mark passes, and the session holds two entries for the student | declare `matricNumber` on the attendee subschema, so a second mark is refused | high; not executed | StudentController.StrictModeRepeatMarkAccepted | StudentController.RepeatMarkFails |
| src/controllers/student.controller.js:185-189 | the pending-request query filters on `matricNumber`, which the OverrideRequest schema (src/models/overrideRequest.model.js:3-42) does not declare, so the stored request lacks it and the query never matches | a student requests an override twice for the same open session: both requests are stored as pending | declare `matricNumber` on the OverrideRequest schema, so a second pending request is refused | high; not executed | StudentController.StrictModeSecondOverrideAccepted | StudentController.SecondOverrideRequestRefused |
