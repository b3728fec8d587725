/**
 * src/controllers/lecturer.controller.js: session creation, the live attendee list, the
 * marked-versus-registered comparison, the override list and the override decisions.  These
 * handlers answer errors themselves, with a status and a message; an `Err` here carries both.
 */
module LecturerController {
  import opened Common
  import opened Models
  import opened Stores
  import opened AttendanceUtils
  import opened StudentController

  // ---------------------------------------------------------------- createSession

  datatype CreateSessionRequest = CreateSessionRequest(
    courseId: string,
    lecturerId: string,
    locationId: string,
    startTime: int,
    endTime: int)

  const AllFieldsRequiredMessage := "All fields are required."
  const CreateSessionFailedMessage := "Server error. Could not create session."

  /** Every field is truthy: ids non-empty, times non-zero. */
  predicate AllSessionFieldsPresent(req: CreateSessionRequest) {
    req.courseId != "" && req.lecturerId != "" && req.locationId != "" && req.startTime != 0 && req.endTime != 0
  }

  /** The document `new Session({...})` builds: status defaults to active, no attendees. */
  function NewSession(req: CreateSessionRequest, newId: string): Session {
    Session(newId, req.courseId, req.lecturerId, req.locationId, req.startTime, req.endTime, [], Active)
  }

  /** `createSession`: the field check, then one insert of an active session with no attendees. */
  method CreateSession(sessions: SessionStore, req: CreateSessionRequest, newId: string) returns (r: Result<Session>)
    modifies sessions
    ensures !AllSessionFieldsPresent(req) ==> r == Err(BadRequest(AllFieldsRequiredMessage))
    ensures AllSessionFieldsPresent(req) && !ValidSessionDoc(NewSession(req, newId))
      ==> r == Err(InternalServer(CreateSessionFailedMessage))
    ensures r.Ok? ==> r.value == NewSession(req, newId) && r.value.status == Active && r.value.attendees == []
    ensures r.Ok? <==> AllSessionFieldsPresent(req) && ValidSessionDoc(NewSession(req, newId))
    ensures sessions.sessions == if r.Ok? then old(sessions.sessions) + [r.value] else old(sessions.sessions)
  {
    if !AllSessionFieldsPresent(req) {
      return Err(BadRequest(AllFieldsRequiredMessage));
    }
    var s := NewSession(req, newId);
    var saved := sessions.Insert(s);
    if !saved {
      return Err(InternalServer(CreateSessionFailedMessage));
    }
    return Ok(s);
  }

  /**
   * A new session takes attendance until its end time, whatever its start time says; and once
   * the field check passes the schema always accepts it, so the insert's 500 answer comes only
   * from failures the model leaves out (casts, the database).
   */
  lemma NewSessionOpenUntilEnd(req: CreateSessionRequest, newId: string, now: int)
    ensures SessionOpen(NewSession(req, newId), now) <==> now <= req.endTime
    ensures AllSessionFieldsPresent(req) ==> ValidSessionDoc(NewSession(req, newId))
  {
  }

  // ---------------------------------------------------------------- getLiveAttendance

  const SessionIdRequiredMessage := "Session ID is required"
  const SessionNotActiveMessage := "Session is not active"
  const LiveServerErrorMessage := "Server error"

  datatype LiveAttendee = LiveAttendee(matricNumber: Option<string>, name: string, level: Option<string>, timestamp: int)

  /** Every entry's student still exists, so `att.studentId.name` can be read. */
  predicate AllStudentsExist(attendees: seq<Attendee>, users: seq<User>) {
    forall k :: 0 <= k < |attendees| ==> UserById(users, attendees[k].studentId).Some?
  }

  /** One row per attendance entry, in entry order, with the student's name and level. */
  function LiveEntries(attendees: seq<Attendee>, users: seq<User>): (r: seq<LiveAttendee>)
    requires AllStudentsExist(attendees, users)
    ensures |r| == |attendees|
    ensures forall k :: 0 <= k < |r| ==>
      var u := users[UserById(users, attendees[k].studentId).value];
      r[k] == LiveAttendee(attendees[k].matricNumber, u.name, u.level, attendees[k].timestamp)
  {
    seq(|attendees|, k requires 0 <= k < |attendees| =>
      var u := users[UserById(users, attendees[k].studentId).value];
      LiveAttendee(attendees[k].matricNumber, u.name, u.level, attendees[k].timestamp))
  }

  /** `getLiveAttendance`: only the status is checked, not the end time. */
  function GetLiveAttendance(sessions: seq<Session>, users: seq<User>, sessionId: string): (r: Result<seq<LiveAttendee>>)
    ensures sessionId == "" ==> r == Err(BadRequest(SessionIdRequiredMessage))
    ensures sessionId != "" && SessionById(sessions, sessionId).None? ==> r == Err(NotFound(SessionNotFoundMessage))
    ensures (sessionId != "" && SessionById(sessions, sessionId).Some?
             && sessions[SessionById(sessions, sessionId).value].status != Active)
      ==> r == Err(BadRequest(SessionNotActiveMessage))
    ensures r.Ok? <==>
      && sessionId != "" && SessionById(sessions, sessionId).Some?
      && var s := sessions[SessionById(sessions, sessionId).value];
      && s.status == Active && AllStudentsExist(s.attendees, users)
    ensures r.Ok? ==> r.value == LiveEntries(sessions[SessionById(sessions, sessionId).value].attendees, users)
    ensures r.Err? ==> r.error.Status() in {400, 404, 500}
  {
    if sessionId == "" then Err(BadRequest(SessionIdRequiredMessage))
    else match SessionById(sessions, sessionId)
      case None => Err(NotFound(SessionNotFoundMessage))
      case Some(k) =>
        if sessions[k].status != Active then Err(BadRequest(SessionNotActiveMessage))
        else if !AllStudentsExist(sessions[k].attendees, users) then Err(InternalServer(LiveServerErrorMessage))
        else Ok(LiveEntries(sessions[k].attendees, users))
  }

  /**
   * The live list follows marking: after a successful markAttendance, the list for that
   * session is the previous list with one row added at the end, for the new matric number
   * and time.
   */
  lemma LiveListGrowsWithMark(sessions: seq<Session>, users: seq<User>, courses: seq<Course>, locations: seq<Location>,
                              req: MarkRequest, now: int)
    requires MarkAttendanceEffect(sessions, users, courses, locations, req, now).result.Ok?
    requires GetLiveAttendance(sessions, users, req.sessionId).Ok?
    ensures var e := MarkAttendanceEffect(sessions, users, courses, locations, req, now);
      var before := GetLiveAttendance(sessions, users, req.sessionId).value;
      var after := GetLiveAttendance(e.sessions, e.users, req.sessionId);
      && after.Ok?
      && |after.value| == |before| + 1
      && after.value[..|before|] == before
      && after.value[|before|].matricNumber == Some(req.matricNumber)
      && after.value[|before|].timestamp == now
  {
    var e := MarkAttendanceEffect(sessions, users, courses, locations, req, now);
    MarkAttendanceAppendsOne(sessions, users, courses, locations, req, now);
    DeviceValidationKeepsProfiles(users, req.matricNumber, req.deviceId);
    var k := SessionById(sessions, req.sessionId).value;
    var student := e.users[UserByMatric(e.users, req.matricNumber).value];
    var entry := MarkedEntry(student.id, req, now);
    var updated := AppendAttendee(sessions[k], entry);
    SessionByIdAfterSave(sessions, req.sessionId, k, updated);
    assert e.sessions[k] == updated;
    var old_ := sessions[k].attendees;
    var new_ := updated.attendees;
    assert UserById(e.users, student.id).Some?;
    assert forall j :: 0 <= j < |old_| ==> new_[j] == old_[j];
    assert AllStudentsExist(new_, e.users);
    var before := LiveEntries(old_, users);
    var after := LiveEntries(new_, e.users);
    forall j | 0 <= j < |old_|
      ensures after[j] == before[j]
    {
      var i := UserById(users, old_[j].studentId).value;
      assert e.users[i] == users[i].(deviceId := e.users[i].deviceId);
    }
  }

  // ---------------------------------------------------------------- getComparison

  const SessionIdMissingMessage := "sessionId is required"
  const CourseNotFoundMessage := "Course not found"
  const MarkedSuffix := " students have been marked for this session"

  datatype Comparison = Comparison(courseName: string, totalRegistered: nat, totalMarked: nat, message: string)

  /** `${totalMarked}/${totalRegistered} students have been marked for this session` */
  function ComparisonMessage(marked: nat, registered: nat): string {
    NatToString(marked) + "/" + NatToString(registered) + MarkedSuffix
  }

  /** `getComparison`: marked is the entry count, registered the course's student count. */
  function GetComparison(sessions: seq<Session>, courses: seq<Course>, sessionId: string): (r: Result<Comparison>)
    ensures sessionId == "" ==> r == Err(BadRequest(SessionIdMissingMessage))
    ensures sessionId != "" && SessionById(sessions, sessionId).None? ==> r == Err(NotFound(SessionNotFoundMessage))
    ensures (sessionId != "" && SessionById(sessions, sessionId).Some?
             && CourseById(courses, sessions[SessionById(sessions, sessionId).value].courseId).None?)
      ==> r == Err(NotFound(CourseNotFoundMessage))
    ensures r.Ok? <==>
      && sessionId != "" && SessionById(sessions, sessionId).Some?
      && CourseById(courses, sessions[SessionById(sessions, sessionId).value].courseId).Some?
    ensures r.Ok? ==>
      var s := sessions[SessionById(sessions, sessionId).value];
      var c := courses[CourseById(courses, s.courseId).value];
      && r.value.totalMarked == |s.attendees|
      && r.value.totalRegistered == |c.students|
      && r.value.courseName == c.name
      && r.value.message == ComparisonMessage(|s.attendees|, |c.students|)
  {
    if sessionId == "" then Err(BadRequest(SessionIdMissingMessage))
    else match SessionById(sessions, sessionId)
      case None => Err(NotFound(SessionNotFoundMessage))
      case Some(k) =>
        match CourseById(courses, sessions[k].courseId)
        case None => Err(NotFound(CourseNotFoundMessage))
        case Some(c) =>
          var marked := |sessions[k].attendees|;
          var registered := |courses[c].students|;
          Ok(Comparison(courses[c].name, registered, marked, ComparisonMessage(marked, registered)))
  }

  /** The message reads back: the digits before the first '/' are the marked count, those after it the registered count. */
  lemma ComparisonMessageReadsBack(marked: nat, registered: nat)
    ensures var msg := ComparisonMessage(marked, registered);
      var i := |NatToString(marked)|;
      var j := i + 1 + |NatToString(registered)|;
      && j < |msg| && msg[i] == '/' && msg[j] == ' '
      && (forall k :: 0 <= k < i ==> IsDigit(msg[k]))
      && (forall k :: i < k < j ==> IsDigit(msg[k]))
      && ParseNat(msg[..i]) == marked
      && ParseNat(msg[i + 1..j]) == registered
  {
    var msg := ComparisonMessage(marked, registered);
    var a, b := NatToString(marked), NatToString(registered);
    var i := |a|;
    var j := i + 1 + |b|;
    var head := a + "/" + b;
    assert |head| == j && head[i] == '/';
    assert msg == head + MarkedSuffix;
    assert msg[i] == head[i];
    assert msg[j] == MarkedSuffix[0];
    assert msg[..i] == a;
    assert msg[i + 1..j] == b;
    NatToStringRoundTrip(marked);
    NatToStringRoundTrip(registered);
  }

  /** After a successful mark the comparison counts one more marked student and the same registered total. */
  lemma MarkIncrementsComparison(sessions: seq<Session>, users: seq<User>, courses: seq<Course>, locations: seq<Location>,
                                 req: MarkRequest, now: int)
    requires MarkAttendanceEffect(sessions, users, courses, locations, req, now).result.Ok?
    requires req.sessionId != ""
    ensures var e := MarkAttendanceEffect(sessions, users, courses, locations, req, now);
      var before := GetComparison(sessions, courses, req.sessionId);
      var after := GetComparison(e.sessions, courses, req.sessionId);
      && before.Ok? && after.Ok?
      && after.value.totalMarked == before.value.totalMarked + 1
      && after.value.totalRegistered == before.value.totalRegistered
  {
    MarkAttendanceAppendsOne(sessions, users, courses, locations, req, now);
    var e := MarkAttendanceEffect(sessions, users, courses, locations, req, now);
    var k := SessionById(sessions, req.sessionId).value;
    var student := e.users[UserByMatric(e.users, req.matricNumber).value];
    var updated := AppendAttendee(sessions[k], MarkedEntry(student.id, req, now));
    SessionByIdAfterSave(sessions, req.sessionId, k, updated);
  }

  // ---------------------------------------------------------------- getOverrideRequests

  const NoOverrideRequestsMessage := "No override requests found for this session"

  function RequestsForSession(requests: seq<OverrideRequest>, sessionId: string): (r: seq<OverrideRequest>)
    ensures |r| <= |requests|
    ensures forall o :: o in r <==> o in requests && o.sessionId == sessionId
  {
    if requests == [] then []
    else
      var rest := RequestsForSession(requests[1..], sessionId);
      if requests[0].sessionId == sessionId then [requests[0]] + rest else rest
  }

  /** `getOverrideRequests`: the session's requests in store order, 404 when there are none. */
  function GetOverrideRequests(requests: seq<OverrideRequest>, sessionId: string): (r: Result<seq<OverrideRequest>>)
    ensures sessionId == "" ==> r == Err(BadRequest(SessionIdRequiredMessage))
    ensures sessionId != "" ==>
      (r == Err(NotFound(NoOverrideRequestsMessage)) <==> forall o :: o in requests ==> o.sessionId != sessionId)
    ensures r.Ok? ==> r.value == RequestsForSession(requests, sessionId) && r.value != []
  {
    if sessionId == "" then Err(BadRequest(SessionIdRequiredMessage))
    else
      var found := RequestsForSession(requests, sessionId);
      if found == [] then Err(NotFound(NoOverrideRequestsMessage))
      else assert found[0] in found; Ok(found)
  }

  /** A stored request shows up in its session's list. */
  lemma CreatedRequestListed(requests: seq<OverrideRequest>, o: OverrideRequest)
    requires o.sessionId != ""
    ensures GetOverrideRequests(requests + [o], o.sessionId).Ok?
    ensures o in GetOverrideRequests(requests + [o], o.sessionId).value
  {
    assert o in requests + [o];
  }

  // ---------------------------------------------------------------- approveOverride / denyOverride

  const RequestNotFoundMessage := "Override request not found"
  const AlreadyDecidedPrefix := "Override request has already been "
  const InternalErrorMessage := "Internal server error"
  /** The device recorded for an approved entry when the student has none. */
  const OverrideDeviceFallback := "override-approved"

  /**
   * The decision step both handlers share: only a pending request may be decided; it then
   * takes the verdict, the deciding lecturer and the decision time, and nothing else changes.
   */
  function Decide(o: OverrideRequest, verdict: OverrideStatus, lecturerId: Option<string>, now: int): (r: Result<OverrideRequest>)
    requires verdict != Pending
    ensures r.Err? <==> o.status != Pending
    ensures r.Err? ==> r.error == BadRequest(AlreadyDecidedPrefix + OverrideStatusName(o.status))
    ensures r.Ok? ==> r.value.status == verdict && r.value.lecturerId == lecturerId && r.value.decisionTimestamp == Some(now)
    ensures r.Ok? ==> r.value.(status := o.status, lecturerId := o.lecturerId, decisionTimestamp := o.decisionTimestamp) == o
  {
    if o.status != Pending then Err(BadRequest(AlreadyDecidedPrefix + OverrideStatusName(o.status)))
    else Ok(o.(status := verdict, lecturerId := lecturerId, decisionTimestamp := Some(now)))
  }

  /** A request is decided at most once: a second decision, either way, is refused and names the first. */
  lemma DecidedAtMostOnce(o: OverrideRequest, first: OverrideStatus, second: OverrideStatus,
                          lecturerId: Option<string>, other: Option<string>, now: int, later: int)
    requires first != Pending && second != Pending
    requires Decide(o, first, lecturerId, now).Ok?
    ensures Decide(Decide(o, first, lecturerId, now).value, second, other, later)
         == Err(BadRequest(AlreadyDecidedPrefix + OverrideStatusName(first)))
  {
  }

  /** The entry an approval appends: the request's student and selfie, stamped with the request's creation time. */
  function OverrideAttendee(o: OverrideRequest, student: User): (a: Attendee)
    ensures a.deviceIdUsed != ""
    ensures student.deviceId.Some? && student.deviceId.value != "" ==> a.deviceIdUsed == student.deviceId.value
    ensures a.studentId == o.studentId && a.selfie == o.selfie && a.timestamp == o.createdAt
    ensures a.matricNumber == student.matricNumber
  {
    var device := if student.deviceId.Some? && student.deviceId.value != "" then student.deviceId.value else OverrideDeviceFallback;
    Attendee(o.studentId, student.matricNumber, o.selfie, device, o.createdAt)
  }

  /** What approveOverride returns on success. */
  datatype Approval = Approval(overrideRequest: OverrideRequest, sessionId: string, studentAdded: bool)

  /**
   * `approveOverride`.  The approved status is saved first; the session and student lookups
   * come after it, so a missing session or student leaves the request approved with no entry
   * added.  The entry is appended without a duplicate check and whether or not the session
   * is still open.
   */
  method ApproveOverride(requests: OverrideStore, sessions: SessionStore, users: seq<User>, requestId: string,
                         lecturerId: Option<string>, now: int) returns (r: Result<Approval>)
    modifies requests, sessions
    ensures RequestById(old(requests.requests), requestId).None?
      ==> r == Err(NotFound(RequestNotFoundMessage)) && requests.requests == old(requests.requests)
          && sessions.sessions == old(sessions.sessions)
    ensures RequestById(old(requests.requests), requestId).Some? ==>
      var k := RequestById(old(requests.requests), requestId).value;
      var o := old(requests.requests)[k];
      var decided := Decide(o, Approved, lecturerId, now);
      && (decided.Err? ==> r == Err(decided.error) && requests.requests == old(requests.requests)
                           && sessions.sessions == old(sessions.sessions))
      && (decided.Ok? ==> requests.requests == old(requests.requests)[k := decided.value])
      && ((decided.Ok? && SessionById(old(sessions.sessions), o.sessionId).None?)
          ==> r == Err(NotFound(SessionNotFoundMessage)) && sessions.sessions == old(sessions.sessions))
      && ((decided.Ok? && SessionById(old(sessions.sessions), o.sessionId).Some? && UserById(users, o.studentId).None?)
          ==> r == Err(InternalServer(InternalErrorMessage)) && sessions.sessions == old(sessions.sessions))
      && (decided.Ok? && SessionById(old(sessions.sessions), o.sessionId).Some? && UserById(users, o.studentId).Some? ==>
            var j := SessionById(old(sessions.sessions), o.sessionId).value;
            var updated := AppendAttendee(old(sessions.sessions)[j], OverrideAttendee(o, users[UserById(users, o.studentId).value]));
            && (ValidSessionDoc(updated) ==>
                  sessions.sessions == old(sessions.sessions)[j := updated] && r == Ok(Approval(decided.value, o.sessionId, true)))
            && (!ValidSessionDoc(updated) ==>
                  sessions.sessions == old(sessions.sessions) && r == Err(InternalServer(InternalErrorMessage))))
  {
    var found := RequestById(requests.requests, requestId);
    if found.None? {
      return Err(NotFound(RequestNotFoundMessage));
    }
    var k := found.value;
    var o := requests.requests[k];
    var decided := Decide(o, Approved, lecturerId, now);
    if decided.Err? {
      return Err(decided.error);
    }
    requests.Save(k, decided.value);
    var session := SessionById(sessions.sessions, o.sessionId);
    if session.None? {
      return Err(NotFound(SessionNotFoundMessage));
    }
    var student := UserById(users, o.studentId);
    if student.None? {
      return Err(InternalServer(InternalErrorMessage));
    }
    var j := session.value;
    var updated := AppendAttendee(sessions.sessions[j], OverrideAttendee(o, users[student.value]));
    var saved := sessions.Save(j, updated);
    if !saved {
      return Err(InternalServer(InternalErrorMessage));
    }
    return Ok(Approval(decided.value, o.sessionId, true));
  }

  /** How many entries carry this matric number. */
  /** Some entry of the list is for this student (by the declared studentId). */
  predicate HasEntryFor(attendees: seq<Attendee>, studentId: string) {
    exists k :: 0 <= k < |attendees| && attendees[k].studentId == studentId
  }

  /** The number of entries for a student, keyed on the declared studentId. */
  function EntryCount(attendees: seq<Attendee>, studentId: string): (n: nat)
    ensures n <= |attendees|
    ensures n > 0 <==> HasEntryFor(attendees, studentId)
  {
    if attendees == [] then 0
    else
      var rest := EntryCount(attendees[1..], studentId);
      assert forall k :: 1 <= k < |attendees| ==> attendees[1..][k - 1] == attendees[k];
      (if attendees[0].studentId == studentId then 1 else 0) + rest
  }

  lemma {:induction false} EntryCountAppend(attendees: seq<Attendee>, a: Attendee, studentId: string)
    ensures EntryCount(attendees + [a], studentId)
         == EntryCount(attendees, studentId) + (if a.studentId == studentId then 1 else 0)
  {
    if attendees != [] {
      assert (attendees + [a])[1..] == attendees[1..] + [a];
      EntryCountAppend(attendees[1..], a, studentId);
    } else {
      assert [a][1..] == [];
    }
  }

  /**
   * Approval does not look for an existing entry: approving an override for a student who
   * already has an entry in the session records that student twice.  The count reads only
   * studentId, which the schema declares, so this holds whether or not matric numbers are stored.
   */
  lemma ApprovalCanDuplicate(s: Session, o: OverrideRequest, student: User)
    requires HasEntryFor(s.attendees, o.studentId)
    ensures EntryCount(AppendAttendee(s, OverrideAttendee(o, student)).attendees, o.studentId) >= 2
  {
    EntryCountAppend(s.attendees, OverrideAttendee(o, student), o.studentId);
  }

  /** `denyOverride`: the same decision with the verdict denied; no session is touched. */
  method DenyOverride(requests: OverrideStore, requestId: string, lecturerId: Option<string>, now: int)
    returns (r: Result<OverrideRequest>)
    modifies requests
    ensures RequestById(old(requests.requests), requestId).None?
      ==> r == Err(NotFound(RequestNotFoundMessage)) && requests.requests == old(requests.requests)
    ensures RequestById(old(requests.requests), requestId).Some? ==>
      var k := RequestById(old(requests.requests), requestId).value;
      var decided := Decide(old(requests.requests)[k], Denied, lecturerId, now);
      && r == decided
      && requests.requests == if decided.Ok? then old(requests.requests)[k := decided.value] else old(requests.requests)
  {
    var found := RequestById(requests.requests, requestId);
    if found.None? {
      return Err(NotFound(RequestNotFoundMessage));
    }
    var k := found.value;
    var decided := Decide(requests.requests[k], Denied, lecturerId, now);
    if decided.Err? {
      return decided;
    }
    requests.Save(k, decided.value);
    return decided;
  }
}
