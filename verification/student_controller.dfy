/**
 * src/controllers/student.controller.js: the student dashboard, the selfie format check,
 * synchronous attendance marking, override requests and course enrolment.  Every handler
 * passes what it throws to the error middleware; here that is the `Err` of a Result.
 */
module StudentController {
  import opened Common
  import opened JsValues
  import opened RequiredFields
  import opened Models
  import opened Stores
  import opened AttendanceUtils

  // ---------------------------------------------------------------- isValidBase64Image

  const DataUrlPrefix := "data:image/"
  const Base64Marker := ";base64,"
  const ImageTypes: seq<string> := ["jpeg", "png", "jpg"]

  /** The character class `[A-Za-z0-9+/=]`. */
  predicate IsBase64Char(c: char) {
    ('A' <= c <= 'Z') || ('a' <= c <= 'z') || ('0' <= c <= '9') || c == '+' || c == '/' || c == '='
  }

  predicate AllBase64(s: string) {
    forall k :: 0 <= k < |s| ==> IsBase64Char(s[k])
  }

  /** A data URL of the accepted shape, built from its image type and payload. */
  function SelfieUrl(imageType: string, payload: string): string {
    DataUrlPrefix + imageType + Base64Marker + payload
  }

  /** What follows "data:image/": the type, the marker, then a non-empty base64 run up to the end. */
  predicate TypeAndPayload(rest: string, imageType: string) {
    var n := |imageType| + |Base64Marker|;
    && |rest| > n
    && rest[..|imageType|] == imageType
    && rest[|imageType|..n] == Base64Marker
    && AllBase64(rest[n..])
  }

  /** `isValidBase64Image(selfie)`: the anchored pattern, read left to right. */
  predicate IsValidBase64Image(selfie: string) {
    && |selfie| >= |DataUrlPrefix|
    && selfie[..|DataUrlPrefix|] == DataUrlPrefix
    && var rest := selfie[|DataUrlPrefix|..];
    && (TypeAndPayload(rest, "jpeg") || TypeAndPayload(rest, "png") || TypeAndPayload(rest, "jpg"))
  }

  /** Every data URL with an accepted type and a non-empty base64 payload passes. */
  lemma SelfieUrlAccepted(imageType: string, payload: string)
    requires imageType in ImageTypes && payload != [] && AllBase64(payload)
    ensures IsValidBase64Image(SelfieUrl(imageType, payload))
  {
    var s := SelfieUrl(imageType, payload);
    var rest := s[|DataUrlPrefix|..];
    assert s[..|DataUrlPrefix|] == DataUrlPrefix;
    assert rest == imageType + Base64Marker + payload;
    var n := |imageType| + |Base64Marker|;
    assert rest[..|imageType|] == imageType;
    assert rest[|imageType|..n] == Base64Marker;
    assert rest[n..] == payload;
  }

  /** And nothing else passes: an accepted selfie is such a data URL, with nothing before or after. */
  lemma ValidSelfieDecomposes(selfie: string) returns (imageType: string, payload: string)
    requires IsValidBase64Image(selfie)
    ensures imageType in ImageTypes && payload != [] && AllBase64(payload)
    ensures selfie == SelfieUrl(imageType, payload)
  {
    var rest := selfie[|DataUrlPrefix|..];
    imageType := if TypeAndPayload(rest, "jpeg") then "jpeg" else if TypeAndPayload(rest, "png") then "png" else "jpg";
    var n := |imageType| + |Base64Marker|;
    payload := rest[n..];
    assert rest == rest[..|imageType|] + rest[|imageType|..n] + rest[n..];
    assert selfie == selfie[..|DataUrlPrefix|] + rest;
  }

  /** Only the characters are checked: a payload of padding alone passes, an empty payload or another type does not. */
  lemma SelfieExamples()
    ensures IsValidBase64Image("data:image/png;base64,=")
    ensures !IsValidBase64Image("data:image/png;base64,")
    ensures !IsValidBase64Image("data:image/gif;base64,AAAA")
  {
    SelfieUrlAccepted("png", "=");
    assert SelfieUrl("png", "=") == "data:image/png;base64,=";
    var gif := "data:image/gif;base64,AAAA";
    var rest := gif[|DataUrlPrefix|..];
    assert rest[0] == 'g';
  }

  // ---------------------------------------------------------------- getDashboard

  /** `String.prototype.split(sep)` for a one-character separator. */
  function Split(s: string, sep: char): (parts: seq<string>)
    ensures |parts| >= 1
    ensures forall k :: 0 <= k < |parts| ==> sep !in parts[k]
  {
    if s == [] then [""]
    else
      var rest := Split(s[1..], sep);
      if s[0] == sep then [""] + rest
      else [[s[0]] + rest[0]] + rest[1..]
  }

  /** Splitting loses nothing: joining the pieces with the separator gives the text back. */
  lemma {:induction false} SplitJoinRoundTrip(s: string, sep: char)
    ensures Join(Split(s, sep), [sep]) == s
  {
    if s != [] {
      var rest := Split(s[1..], sep);
      SplitJoinRoundTrip(s[1..], sep);
      if s[0] == sep {
        assert ([""] + rest)[1..] == rest;
      } else {
        var parts := [[s[0]] + rest[0]] + rest[1..];
        assert parts[1..] == rest[1..];
        if |rest| > 1 {
          assert Join(rest, [sep]) == rest[0] + [sep] + Join(rest[1..], [sep]);
        }
      }
    }
  }

  /** The sessions `Session.find` returns: active, ending after now, and in the chosen courses if any were named. */
  predicate OnDashboard(s: Session, chosenCourses: string, now: int) {
    && s.status == Active
    && s.endTime > now
    && (chosenCourses == "" || s.courseId in Split(chosenCourses, ','))
  }

  function DashboardSessions(sessions: seq<Session>, chosenCourses: string, now: int): (r: seq<Session>)
    ensures |r| <= |sessions|
    ensures forall s :: s in r <==> s in sessions && OnDashboard(s, chosenCourses, now)
  {
    if sessions == [] then []
    else
      var rest := DashboardSessions(sessions[1..], chosenCourses, now);
      if OnDashboard(sessions[0], chosenCourses, now) then [sessions[0]] + rest else rest
  }

  /** `Math.max(0, Math.floor((endTime - now) / 60000))`: whole minutes left, never negative. */
  function TimeRemaining(endTime: int, now: int): (minutes: nat)
    ensures endTime >= now ==> minutes * 60000 <= endTime - now < (minutes + 1) * 60000
    ensures endTime < now ==> minutes == 0
  {
    var m := (endTime - now) / 60000;
    if m < 0 then 0 else m
  }

  datatype DashboardEntry = DashboardEntry(
    id: string,
    courseName: Option<string>,
    lecturerName: Option<string>,
    locationName: Option<string>,
    timeRemaining: nat,
    attendeeCount: nat)

  /** `populate(...)` then `?.name`: the referenced document's name, undefined when it is missing. */
  function CourseName(courses: seq<Course>, id: string): Option<string> {
    match CourseById(courses, id)
    case None => None
    case Some(k) => Some(courses[k].name)
  }

  function UserName(users: seq<User>, id: string): Option<string> {
    match UserById(users, id)
    case None => None
    case Some(k) => Some(users[k].name)
  }

  function LocationName(locations: seq<Location>, id: string): Option<string> {
    match LocationById(locations, id)
    case None => None
    case Some(k) => Some(locations[k].name)
  }

  /** `getDashboard`: one entry per listed session, in store order. */
  function GetDashboard(sessions: seq<Session>, courses: seq<Course>, users: seq<User>, locations: seq<Location>,
                        chosenCourses: string, now: int): (r: seq<DashboardEntry>)
    ensures var listed := DashboardSessions(sessions, chosenCourses, now);
      && |r| == |listed|
      && forall k :: 0 <= k < |r| ==>
           && r[k].id == listed[k].id
           && r[k].courseName == CourseName(courses, listed[k].courseId)
           && r[k].lecturerName == UserName(users, listed[k].lecturerId)
           && r[k].locationName == LocationName(locations, listed[k].locationId)
           && r[k].timeRemaining == TimeRemaining(listed[k].endTime, now)
           && r[k].attendeeCount == |listed[k].attendees|
  {
    var listed := DashboardSessions(sessions, chosenCourses, now);
    seq(|listed|, k requires 0 <= k < |listed| =>
      DashboardEntry(listed[k].id, CourseName(courses, listed[k].courseId), UserName(users, listed[k].lecturerId),
                     LocationName(locations, listed[k].locationId), TimeRemaining(listed[k].endTime, now),
                     |listed[k].attendees|))
  }

  /** Every session that qualifies has its entry, with its attendee count and remaining minutes. */
  lemma DashboardShowsEveryOpenSession(sessions: seq<Session>, courses: seq<Course>, users: seq<User>,
                                       locations: seq<Location>, chosenCourses: string, now: int, s: Session)
    requires s in sessions && OnDashboard(s, chosenCourses, now)
    ensures var r := GetDashboard(sessions, courses, users, locations, chosenCourses, now);
      exists k :: 0 <= k < |r| && r[k].id == s.id && r[k].attendeeCount == |s.attendees|
                  && r[k].timeRemaining == TimeRemaining(s.endTime, now)
  {
    var r := GetDashboard(sessions, courses, users, locations, chosenCourses, now);
    var listed := DashboardSessions(sessions, chosenCourses, now);
    var k :| 0 <= k < |listed| && listed[k] == s;
    assert r[k].id == s.id;
  }

  /** A listed session ends after now, so its remaining time is the exact count of whole minutes left. */
  lemma DashboardTimeIsWholeMinutesLeft(sessions: seq<Session>, courses: seq<Course>, users: seq<User>,
                                        locations: seq<Location>, chosenCourses: string, now: int, k: nat)
    requires k < |GetDashboard(sessions, courses, users, locations, chosenCourses, now)|
    ensures var e := DashboardSessions(sessions, chosenCourses, now)[k].endTime;
      var m := GetDashboard(sessions, courses, users, locations, chosenCourses, now)[k].timeRemaining;
      e > now && m * 60000 <= e - now < (m + 1) * 60000
  {
    var listed := DashboardSessions(sessions, chosenCourses, now);
    assert listed[k] in listed;
  }

  // ---------------------------------------------------------------- the attendance checks

  const InvalidSelfieMessage := "Invalid selfie format: must be a base64-encoded image"
  const SessionNotFoundMessage := "Session not found"
  const SessionClosedMessage := "Session has ended or is not active"
  const AlreadyMarkedMessage := "Attendance already marked for this session with this matric number"
  const OutsideMessage := "You are not within the required location for this class"
  const StudentNotFoundByMatricMessage := "Student not found with this matric number"
  /** The TypeError a missing populated location or course raises. */
  const NullReferenceMessage := "Cannot read properties of null"

  /** A session still accepts attendance at its end time; only after it, or once not active, does it refuse. */
  predicate SessionOpen(s: Session, now: int) {
    s.status == Active && !(now > s.endTime)
  }

  /** `session.attendees.some((a) => a.matricNumber === matricNumber)` */
  predicate HasMarked(attendees: seq<Attendee>, matricNumber: string) {
    exists k :: 0 <= k < |attendees| && attendees[k].matricNumber == Some(matricNumber)
  }

  /** The polygon of the session's location, when the location exists. */
  function SessionCorners(locations: seq<Location>, s: Session): Option<seq<Corner>> {
    match LocationById(locations, s.locationId)
    case None => None
    case Some(k) => Some(locations[k].corners)
  }

  /**
   * The checks the controller and the queue handler share, in their order: the session
   * exists, is open, has no entry with this matric number, and the point is inside its
   * location's polygon.  The answer is the session's index.
   */
  function SessionChecks(sessions: seq<Session>, locations: seq<Location>, sessionId: string, matricNumber: string,
                         latitude: real, longitude: real, now: int): (r: Result<nat>)
    ensures SessionById(sessions, sessionId).None? ==> r == Err(NotFound(SessionNotFoundMessage))
    ensures SessionById(sessions, sessionId).Some? ==>
      var s := sessions[SessionById(sessions, sessionId).value];
      && (!SessionOpen(s, now) ==> r == Err(BadRequest(SessionClosedMessage)))
      && (SessionOpen(s, now) && HasMarked(s.attendees, matricNumber) ==> r == Err(BadRequest(AlreadyMarkedMessage)))
      && ((SessionOpen(s, now) && !HasMarked(s.attendees, matricNumber) && SessionCorners(locations, s).None?)
            ==> r == Err(Uncaught(NullReferenceMessage)))
      && ((SessionOpen(s, now) && !HasMarked(s.attendees, matricNumber) && SessionCorners(locations, s).Some?
           && !Inside(latitude, longitude, SessionCorners(locations, s).value))
            ==> r == Err(BadRequest(OutsideMessage)))
    ensures r.Ok? <==>
      && SessionById(sessions, sessionId).Some?
      && var s := sessions[SessionById(sessions, sessionId).value];
      && SessionOpen(s, now) && !HasMarked(s.attendees, matricNumber)
      && SessionCorners(locations, s).Some? && Inside(latitude, longitude, SessionCorners(locations, s).value)
    ensures r.Ok? ==> SessionById(sessions, sessionId) == Some(r.value)
  {
    match SessionById(sessions, sessionId)
    case None => Err(NotFound(SessionNotFoundMessage))
    case Some(k) =>
      var s := sessions[k];
      if !SessionOpen(s, now) then Err(BadRequest(SessionClosedMessage))
      else if HasMarked(s.attendees, matricNumber) then Err(BadRequest(AlreadyMarkedMessage))
      else match SessionCorners(locations, s)
        case None => Err(Uncaught(NullReferenceMessage))
        case Some(corners) =>
          if !Inside(latitude, longitude, corners) then Err(BadRequest(OutsideMessage)) else Ok(k)
  }

  /** `session.attendees.push(entry)` */
  function AppendAttendee(s: Session, a: Attendee): (r: Session)
    ensures r.attendees == s.attendees + [a]
    ensures r.(attendees := s.attendees) == s
  {
    s.(attendees := s.attendees + [a])
  }

  /** Appending an entry with a matric number makes that number marked. */
  lemma AppendMarks(s: Session, a: Attendee, matricNumber: string)
    requires a.matricNumber == Some(matricNumber)
    ensures HasMarked(AppendAttendee(s, a).attendees, matricNumber)
  {
    assert AppendAttendee(s, a).attendees[|s.attendees|] == a;
  }

  // ---------------------------------------------------------------- markAttendance

  datatype MarkRequest = MarkRequest(
    sessionId: string,
    deviceId: string,
    selfie: string,
    latitude: real,
    longitude: real,
    matricNumber: string)

  const MarkFields: seq<string> := ["sessionId", "deviceId", "selfie", "latitude", "longitude", "matricNumber"]

  /** The request body as the required-field check sees it. */
  function MarkBody(req: MarkRequest): map<string, JsValue> {
    map["sessionId" := Str(req.sessionId), "deviceId" := Str(req.deviceId), "selfie" := Str(req.selfie),
        "latitude" := Num(req.latitude), "longitude" := Num(req.longitude), "matricNumber" := Str(req.matricNumber)]
  }

  /** Steps before any write: required fields, selfie format, then the shared session checks. */
  function MarkAttendanceChecks(sessions: seq<Session>, locations: seq<Location>, req: MarkRequest, now: int): (r: Result<nat>)
    ensures ValidateRequiredFields(MarkFields, MarkBody(req)).Fail? ==> r == Err(ValidateRequiredFields(MarkFields, MarkBody(req)).error)
    ensures ValidateRequiredFields(MarkFields, MarkBody(req)).Pass? && !IsValidBase64Image(req.selfie)
      ==> r == Err(BadRequest(InvalidSelfieMessage))
    ensures ValidateRequiredFields(MarkFields, MarkBody(req)).Pass? && IsValidBase64Image(req.selfie)
      ==> r == SessionChecks(sessions, locations, req.sessionId, req.matricNumber, req.latitude, req.longitude, now)
  {
    match ValidateRequiredFields(MarkFields, MarkBody(req))
    case Fail(e) => Err(e)
    case Pass =>
      if !IsValidBase64Image(req.selfie) then Err(BadRequest(InvalidSelfieMessage))
      else SessionChecks(sessions, locations, req.sessionId, req.matricNumber, req.latitude, req.longitude, now)
  }

  /** The entry markAttendance appends. */
  function MarkedEntry(studentId: string, req: MarkRequest, now: int): Attendee {
    Attendee(studentId, Some(req.matricNumber), req.selfie, req.deviceId, now)
  }

  /** A handler's answer together with the collections it leaves behind. */
  datatype MarkEffect = MarkEffect(result: Result<AttendanceReceipt>, sessions: seq<Session>, users: seq<User>)

  /**
   * What markAttendance does: the checks; device validation, which may bind the device;
   * the student lookup; the append and save; then the response, which reads the course
   * name and fails after the save when the course is missing.
   */
  function MarkAttendanceEffect(sessions: seq<Session>, users: seq<User>, courses: seq<Course>, locations: seq<Location>,
                                req: MarkRequest, now: int): (e: MarkEffect)
    ensures |e.sessions| == |sessions| && |e.users| == |users|
  {
    match MarkAttendanceChecks(sessions, locations, req, now)
    case Err(err) => MarkEffect(Err(err), sessions, users)
    case Ok(k) =>
      var bound := AfterDeviceValidation(users, req.matricNumber, req.deviceId);
      match DeviceDecision(users, req.matricNumber, req.deviceId)
      case DeviceRejected(message, conflict) => MarkEffect(Err(DeviceConflict(message, Some(conflict))), sessions, bound)
      case DeviceAccepted =>
        match UserByMatric(bound, req.matricNumber)
        case None => MarkEffect(Err(NotFound(StudentNotFoundByMatricMessage)), sessions, bound)
        case Some(u) =>
          var updated := AppendAttendee(sessions[k], MarkedEntry(bound[u].id, req, now));
          if !ValidSessionDoc(updated) then MarkEffect(Err(Uncaught(ValidationFailedMessage)), sessions, bound)
          else
            match CourseById(courses, sessions[k].courseId)
            case None => MarkEffect(Err(Uncaught(NullReferenceMessage)), sessions[k := updated], bound)
            case Some(c) =>
              MarkEffect(Ok(AttendanceReceipt(courses[c].name, now, |updated.attendees|)), sessions[k := updated], bound)
  }

  /** `markAttendance`: each step is one store operation, in the handler's order. */
  method MarkAttendance(sessions: SessionStore, users: UserStore, courses: seq<Course>, locations: seq<Location>,
                        req: MarkRequest, now: int) returns (r: Result<AttendanceReceipt>)
    modifies sessions, users
    ensures MarkEffect(r, sessions.sessions, users.users)
         == MarkAttendanceEffect(old(sessions.sessions), old(users.users), courses, locations, req, now)
  {
    var checks := MarkAttendanceChecks(sessions.sessions, locations, req, now);
    if checks.Err? {
      return Err(checks.error);
    }
    var k := checks.value;
    var device := HandleDeviceValidation(users, req.matricNumber, req.deviceId);
    if device.DeviceRejected? {
      return Err(DeviceConflict(device.message, Some(device.conflict)));
    }
    var student := UserByMatric(users.users, req.matricNumber);
    if student.None? {
      return Err(NotFound(StudentNotFoundByMatricMessage));
    }
    var session := sessions.sessions[k];
    var updated := AppendAttendee(session, MarkedEntry(users.users[student.value].id, req, now));
    var saved := sessions.Save(k, updated);
    if !saved {
      return Err(Uncaught(ValidationFailedMessage));
    }
    var course := CourseById(courses, session.courseId);
    if course.None? {
      return Err(Uncaught(NullReferenceMessage));
    }
    return Ok(AttendanceReceipt(courses[course.value].name, now, |updated.attendees|));
  }

  /**
   * A successful mark appends exactly one entry, for this matric number, to the requested
   * session; no other session changes and the count reported is the new length.
   */
  lemma MarkAttendanceAppendsOne(sessions: seq<Session>, users: seq<User>, courses: seq<Course>, locations: seq<Location>,
                                 req: MarkRequest, now: int)
    requires MarkAttendanceEffect(sessions, users, courses, locations, req, now).result.Ok?
    ensures SessionById(sessions, req.sessionId).Some?
    ensures var e := MarkAttendanceEffect(sessions, users, courses, locations, req, now);
      var k := SessionById(sessions, req.sessionId).value;
      && e.users == AfterDeviceValidation(users, req.matricNumber, req.deviceId)
      && UserByMatric(e.users, req.matricNumber).Some?
      && var student := e.users[UserByMatric(e.users, req.matricNumber).value];
      && e.sessions == sessions[k := AppendAttendee(sessions[k], MarkedEntry(student.id, req, now))]
      && e.result.value.attendeeCount == |sessions[k].attendees| + 1
  {
  }

  /** A failed check writes nothing; a refused device or a missing student leaves every session as it was. */
  lemma MarkAttendanceFailureKeepsSessions(sessions: seq<Session>, users: seq<User>, courses: seq<Course>,
                                           locations: seq<Location>, req: MarkRequest, now: int)
    requires MarkAttendanceEffect(sessions, users, courses, locations, req, now).result.Err?
    ensures var e := MarkAttendanceEffect(sessions, users, courses, locations, req, now);
      && (MarkAttendanceChecks(sessions, locations, req, now).Err? ==> e.users == users)
      && (e.result.error.message != NullReferenceMessage ==> e.sessions == sessions)
  {
  }

  /**
   * The two rungs after the checks: a device held by another student is refused with the
   * holder's details and nothing written; an accepted device (bound if it was free) whose
   * student is then not found by matric number gives 404 and leaves every session as it was.
   */
  lemma MarkAttendanceLateFailures(sessions: seq<Session>, users: seq<User>, courses: seq<Course>,
                                   locations: seq<Location>, req: MarkRequest, now: int)
    requires MarkAttendanceChecks(sessions, locations, req, now).Ok?
    ensures var e := MarkAttendanceEffect(sessions, users, courses, locations, req, now);
      var d := DeviceDecision(users, req.matricNumber, req.deviceId);
      && (d.DeviceRejected? ==>
            && e.result == Err(DeviceConflict(d.message, Some(d.conflict)))
            && e.result.error.Status() == 400
            && e.sessions == sessions && e.users == users)
      && ((d.DeviceAccepted? && UserByMatric(AfterDeviceValidation(users, req.matricNumber, req.deviceId), req.matricNumber).None?)
            ==> && e.result == Err(NotFound(StudentNotFoundByMatricMessage))
                && e.sessions == sessions
                && e.users == AfterDeviceValidation(users, req.matricNumber, req.deviceId))
  {
  }

  /**
   * Marking twice does not add a second entry: after a successful mark, a request for the same
   * session and matric number that passes the field and selfie checks, while the session is
   * still open, fails with "already marked" and writes nothing.
   */
  lemma RepeatMarkFails(sessions: seq<Session>, users: seq<User>, courses: seq<Course>, locations: seq<Location>,
                        req: MarkRequest, now: int, again: MarkRequest, later: int)
    requires MarkAttendanceEffect(sessions, users, courses, locations, req, now).result.Ok?
    requires again.sessionId == req.sessionId && again.matricNumber == req.matricNumber
    requires ValidateRequiredFields(MarkFields, MarkBody(again)).Pass? && IsValidBase64Image(again.selfie)
    requires later <= sessions[SessionById(sessions, req.sessionId).value].endTime
    ensures SessionById(sessions, req.sessionId).Some?
    ensures var e := MarkAttendanceEffect(sessions, users, courses, locations, req, now);
      var e2 := MarkAttendanceEffect(e.sessions, e.users, courses, locations, again, later);
      && e2.result == Err(BadRequest(AlreadyMarkedMessage))
      && e2.sessions == e.sessions && e2.users == e.users
  {
    MarkAttendanceAppendsOne(sessions, users, courses, locations, req, now);
    var e := MarkAttendanceEffect(sessions, users, courses, locations, req, now);
    var k := SessionById(sessions, req.sessionId).value;
    var a := MarkedEntry(e.users[UserByMatric(e.users, req.matricNumber).value].id, req, now);
    SessionByIdAfterSave(sessions, req.sessionId, k, AppendAttendee(sessions[k], a));
    AppendMarks(sessions[k], a, req.matricNumber);
  }

  /**
   * As the schema stores it: strict mode drops the matric number from every saved entry, so
   * the duplicate check never fires and the same request, repeated while the session is still
   * open, succeeds again and leaves two entries for the student.
   */
  lemma StrictModeRepeatMarkAccepted(sessions: seq<Session>, users: seq<User>, courses: seq<Course>,
                                     locations: seq<Location>, req: MarkRequest, now: int, later: int)
    requires MarkAttendanceEffect(sessions, users, courses, locations, req, now).result.Ok?
    requires SessionById(sessions, req.sessionId).Some?
    requires later <= sessions[SessionById(sessions, req.sessionId).value].endTime
    ensures var e := MarkAttendanceEffect(sessions, users, courses, locations, req, now);
      var k := SessionById(sessions, req.sessionId).value;
      var e2 := MarkAttendanceEffect(e.sessions[k := StoredSession(e.sessions[k])], e.users, courses, locations, req, later);
      && e2.result.Ok?
      && e2.result.value.attendeeCount == |sessions[k].attendees| + 2
  {
    MarkAttendanceAppendsOne(sessions, users, courses, locations, req, now);
    var e := MarkAttendanceEffect(sessions, users, courses, locations, req, now);
    var k := SessionById(sessions, req.sessionId).value;
    assert MarkAttendanceChecks(sessions, locations, req, now) == Ok(k);
    var student := e.users[UserByMatric(e.users, req.matricNumber).value];
    var updated := AppendAttendee(sessions[k], MarkedEntry(student.id, req, now));
    var stored := StoredSession(updated);
    var persisted := e.sessions[k := stored];
    assert persisted == sessions[k := stored];
    SessionByIdAfterSave(sessions, req.sessionId, k, stored);
    assert !HasMarked(stored.attendees, req.matricNumber);
    assert MarkAttendanceChecks(persisted, locations, req, later) == Ok(k);
    RevalidationAccepts(users, req.matricNumber, req.deviceId);
    assert ValidAttendee(updated.attendees[|sessions[k].attendees|]);
    assert ValidSessionDoc(AppendAttendee(stored, MarkedEntry(student.id, req, later)));
  }

  /** The session is still open at its end time and closed one millisecond later. */
  lemma SessionOpenUntilEndTime(s: Session)
    requires s.status == Active
    ensures SessionOpen(s, s.endTime)
    ensures !SessionOpen(s, s.endTime + 1)
  {
  }

  // ---------------------------------------------------------------- requestOverride

  datatype OverrideBody = OverrideBody(sessionId: string, selfie: string, deviceId: string, matricNumber: string)

  const OverrideFields: seq<string> := ["sessionId", "selfie", "deviceId", "matricNumber"]
  const OverrideClosedMessage := "Session has ended, cannot request override"
  const AlreadySubmittedMessage := "Override request already submitted for this session"
  const OwnerLookupFailedMessage := "Error fetching original device owner"

  function OverrideBodyMap(req: OverrideBody): map<string, JsValue> {
    map["sessionId" := Str(req.sessionId), "selfie" := Str(req.selfie), "deviceId" := Str(req.deviceId),
        "matricNumber" := Str(req.matricNumber)]
  }

  /** `OverrideRequest.findOne({sessionId, matricNumber, status: 'pending'})` finds one. */
  predicate PendingRequestExists(requests: seq<OverrideRequest>, sessionId: string, matricNumber: string) {
    exists k :: 0 <= k < |requests| && requests[k].sessionId == sessionId && requests[k].matricNumber == matricNumber
                && requests[k].status == Pending
  }

  /** `originalOwner.conflictInfo?.matricNumber` and `?.selfie` */
  function OwnerMatric(lookup: OwnerLookup): Option<string> {
    if lookup.conflictInfo.Some? then lookup.conflictInfo.value.matricNumber else None
  }

  function OwnerSelfie(lookup: OwnerLookup): Option<string> {
    if lookup.conflictInfo.Some? then lookup.conflictInfo.value.selfie else None
  }

  /**
   * The checks of requestOverride in order, and the request it then creates: pending,
   * addressed to the session's lecturer, with the device holder's matric number and selfie.
   */
  function RequestOverrideChecks(sessions: seq<Session>, requests: seq<OverrideRequest>, users: seq<User>,
                                 req: OverrideBody, newId: string, now: int, lookupFails: bool): (r: Result<OverrideRequest>)
    ensures ValidateRequiredFields(OverrideFields, OverrideBodyMap(req)).Fail?
      ==> r == Err(ValidateRequiredFields(OverrideFields, OverrideBodyMap(req)).error)
    ensures r.Ok? <==>
      && ValidateRequiredFields(OverrideFields, OverrideBodyMap(req)).Pass?
      && SessionById(sessions, req.sessionId).Some?
      && SessionOpen(sessions[SessionById(sessions, req.sessionId).value], now)
      && !PendingRequestExists(requests, req.sessionId, req.matricNumber)
      && UserByMatric(users, req.matricNumber).Some?
      && !lookupFails
    ensures ValidateRequiredFields(OverrideFields, OverrideBodyMap(req)).Pass? && SessionById(sessions, req.sessionId).None?
      ==> r == Err(NotFound(SessionNotFoundMessage))
    ensures ValidateRequiredFields(OverrideFields, OverrideBodyMap(req)).Pass? && SessionById(sessions, req.sessionId).Some? ==>
      var s := sessions[SessionById(sessions, req.sessionId).value];
      var pending := PendingRequestExists(requests, req.sessionId, req.matricNumber);
      && (!SessionOpen(s, now) ==> r == Err(BadRequest(OverrideClosedMessage)))
      && (SessionOpen(s, now) && pending ==> r == Err(BadRequest(AlreadySubmittedMessage)))
      && ((SessionOpen(s, now) && !pending && UserByMatric(users, req.matricNumber).None?)
            ==> r == Err(NotFound(StudentNotFoundByMatricMessage)))
      && ((SessionOpen(s, now) && !pending && UserByMatric(users, req.matricNumber).Some? && lookupFails)
            ==> r == Err(InternalServer(OwnerLookupFailedMessage)))
    ensures r.Ok? ==>
      var lookup := FetchOriginalOwner(users, req.deviceId, false);
      r.value == OverrideRequest(newId, users[UserByMatric(users, req.matricNumber).value].id, req.sessionId,
                                 req.matricNumber, req.selfie, OwnerMatric(lookup), OwnerSelfie(lookup), Pending,
                                 Some(sessions[SessionById(sessions, req.sessionId).value].lecturerId), None, now)
  {
    match ValidateRequiredFields(OverrideFields, OverrideBodyMap(req))
    case Fail(e) => Err(e)
    case Pass =>
      match SessionById(sessions, req.sessionId)
      case None => Err(NotFound(SessionNotFoundMessage))
      case Some(k) =>
        if !SessionOpen(sessions[k], now) then Err(BadRequest(OverrideClosedMessage))
        else if PendingRequestExists(requests, req.sessionId, req.matricNumber) then Err(BadRequest(AlreadySubmittedMessage))
        else match UserByMatric(users, req.matricNumber)
          case None => Err(NotFound(StudentNotFoundByMatricMessage))
          case Some(u) =>
            var lookup := FetchOriginalOwner(users, req.deviceId, lookupFails);
            if !lookup.success && lookup.message == Some(FetchOwnerErrorMessage) then Err(InternalServer(OwnerLookupFailedMessage))
            else Ok(OverrideRequest(newId, users[u].id, req.sessionId, req.matricNumber, req.selfie, OwnerMatric(lookup),
                                    OwnerSelfie(lookup), Pending, Some(sessions[k].lecturerId), None, now))
  }

  /** What requestOverride answers: the new request's id and the device holder's matric number. */
  datatype OverrideReceipt = OverrideReceipt(overrideRequestId: string, realOwner: Option<string>)

  /** `requestOverride`; `lookupFails` says whether the holder lookup inside fetchOriginalOwner fails. */
  method RequestOverride(sessions: seq<Session>, requests: OverrideStore, users: seq<User>, req: OverrideBody,
                         newId: string, now: int, lookupFails: bool) returns (r: Result<OverrideReceipt>)
    modifies requests
    ensures var checks := RequestOverrideChecks(sessions, old(requests.requests), users, req, newId, now, lookupFails);
      && (checks.Err? ==> r == Err(checks.error) && requests.requests == old(requests.requests))
      && ((checks.Ok? && !ValidOverrideDoc(checks.value))
            ==> r == Err(Uncaught(ValidationFailedMessage)) && requests.requests == old(requests.requests))
      && ((checks.Ok? && ValidOverrideDoc(checks.value))
            ==> r == Ok(OverrideReceipt(newId, checks.value.originalOwnerMatric))
                && requests.requests == old(requests.requests) + [checks.value])
  {
    var checks := RequestOverrideChecks(sessions, requests.requests, users, req, newId, now, lookupFails);
    if checks.Err? {
      return Err(checks.error);
    }
    var created := requests.Create(checks.value);
    if !created {
      return Err(Uncaught(ValidationFailedMessage));
    }
    return Ok(OverrideReceipt(newId, checks.value.originalOwnerMatric));
  }

  /**
   * The schema requires both owner snapshots, so a request for a device nobody holds is
   * refused by validation: only a contested device can be overridden.
   */
  lemma UnheldDeviceCannotBeOverridden(sessions: seq<Session>, requests: seq<OverrideRequest>, users: seq<User>,
                                       req: OverrideBody, newId: string, now: int)
    requires forall k :: 0 <= k < |users| ==> users[k].deviceId != Some(req.deviceId)
    requires RequestOverrideChecks(sessions, requests, users, req, newId, now, false).Ok?
    ensures !ValidOverrideDoc(RequestOverrideChecks(sessions, requests, users, req, newId, now, false).value)
  {
  }

  /** Once a request is stored, the same student's next request for that session is refused while the first is pending. */
  lemma SecondOverrideRequestRefused(sessions: seq<Session>, requests: seq<OverrideRequest>, users: seq<User>,
                                     req: OverrideBody, newId: string, now: int, again: OverrideBody, otherId: string)
    requires RequestOverrideChecks(sessions, requests, users, req, newId, now, false).Ok?
    requires again.sessionId == req.sessionId && again.matricNumber == req.matricNumber
    requires ValidateRequiredFields(OverrideFields, OverrideBodyMap(again)).Pass?
    ensures var stored := requests + [RequestOverrideChecks(sessions, requests, users, req, newId, now, false).value];
      RequestOverrideChecks(sessions, stored, users, again, otherId, now, false) == Err(BadRequest(AlreadySubmittedMessage))
  {
    var doc := RequestOverrideChecks(sessions, requests, users, req, newId, now, false).value;
    var stored := requests + [doc];
    assert stored[|requests|] == doc;
    assert PendingRequestExists(stored, again.sessionId, again.matricNumber);
  }

  /**
   * As the schema stores it: strict mode drops the matric number from every saved request, so
   * the pending-request query never matches, and the same request made again is checked
   * through and yields a second pending request, identical but for its id.
   */
  lemma StrictModeSecondOverrideAccepted(sessions: seq<Session>, requests: seq<OverrideRequest>, users: seq<User>,
                                         req: OverrideBody, newId: string, now: int, otherId: string)
    requires RequestOverrideChecks(sessions, requests, users, req, newId, now, false).Ok?
    ensures var first := RequestOverrideChecks(sessions, requests, users, req, newId, now, false).value;
      RequestOverrideChecks(sessions, StoredRequests(requests + [first]), users, req, otherId, now, false)
        == Ok(first.(id := otherId))
  {
    var first := RequestOverrideChecks(sessions, requests, users, req, newId, now, false).value;
    var stored := StoredRequests(requests + [first]);
    assert "matricNumber" in OverrideFields;
    assert req.matricNumber != "";
    assert !PendingRequestExists(stored, req.sessionId, req.matricNumber);
  }

  // ---------------------------------------------------------------- enrollInCourses

  const CourseIdsMessage := "courseIds must be a non-empty array"
  const StudentNotFoundMessage := "Student not found"
  /** The error saving a selectedCourses entry that is not an id raises. */
  const CastFailedMessage := "Cast to ObjectId failed"

  predicate AllStrings(items: seq<JsValue>) {
    forall k :: 0 <= k < |items| ==> items[k].Str?
  }

  function Strings(items: seq<JsValue>): (r: seq<string>)
    requires AllStrings(items)
    ensures |r| == |items| && forall k :: 0 <= k < |r| ==> items[k] == Str(r[k])
  {
    seq(|items|, k requires 0 <= k < |items| => items[k].s)
  }

  /**
   * `enrollInCourses`: the student's selectedCourses becomes exactly the given list, and the
   * student is added, as a set member, to every listed course that exists.
   */
  method EnrollInCourses(users: UserStore, courses: CourseStore, studentId: string, courseIds: JsValue)
    returns (r: Result<seq<string>>)
    modifies users, courses
    ensures !Truthy(Str(studentId)) ==> r == Err(BadRequest(MissingPrefix + "studentId"))
    ensures Truthy(Str(studentId)) && !(courseIds.Arr? && |courseIds.items| > 0) ==> r == Err(BadRequest(CourseIdsMessage))
    ensures Truthy(Str(studentId)) && courseIds.Arr? && |courseIds.items| > 0 && UserById(old(users.users), studentId).None?
      ==> r == Err(NotFound(StudentNotFoundMessage))
    ensures r.Ok? <==> (Truthy(Str(studentId)) && courseIds.Arr? && |courseIds.items| > 0
                       && UserById(old(users.users), studentId).Some? && AllStrings(courseIds.items))
    ensures r.Err? ==> users.users == old(users.users) && courses.courses == old(courses.courses)
    ensures r.Ok? ==>
      var k := UserById(old(users.users), studentId).value;
      && r.value == Strings(courseIds.items)
      && users.users == old(users.users)[k := old(users.users)[k].(selectedCourses := r.value)]
      && courses.courses == EnrollInListed(old(courses.courses), r.value, old(users.users)[k].id)
  {
    var body := map["studentId" := Str(studentId), "courseIds" := courseIds];
    var required := ValidateRequiredFields(["studentId"], body);
    if required.Fail? {
      assert MissingFields(["studentId"], body) == ["studentId"];
      return Err(required.error);
    }
    if !courseIds.Arr? || |courseIds.items| == 0 {
      return Err(BadRequest(CourseIdsMessage));
    }
    var student := UserById(users.users, studentId);
    if student.None? {
      return Err(NotFound(StudentNotFoundMessage));
    }
    if !AllStrings(courseIds.items) {
      return Err(Uncaught(CastFailedMessage));
    }
    var ids := Strings(courseIds.items);
    var k := student.value;
    var id := users.users[k].id;
    users.SetSelectedCourses(k, ids);
    courses.AddStudentToCourses(ids, id);
    return Ok(ids);
  }

  /** Enrolling keeps every course's student list free of duplicates and puts the student on each listed course. */
  lemma EnrollKeepsStudentSets(courses: seq<Course>, courseIds: seq<string>, studentId: string)
    requires forall k :: 0 <= k < |courses| ==> NoDuplicates(courses[k].students)
    ensures var r := EnrollInListed(courses, courseIds, studentId);
      && (forall k :: 0 <= k < |r| ==> NoDuplicates(r[k].students))
      && (forall k :: 0 <= k < |r| && courses[k].id in courseIds ==> studentId in r[k].students)
  {
    var r := EnrollInListed(courses, courseIds, studentId);
    forall k | 0 <= k < |r|
      ensures NoDuplicates(r[k].students)
    {
      if courses[k].id in courseIds {
        AddToSetNoDuplicates(courses[k].students, studentId);
      }
    }
  }
}
