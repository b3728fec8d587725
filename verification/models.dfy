/**
 * The records the attendance pipeline stores, after the Mongoose schemas in
 * src/models/user.model.js, src/models/attendanceSession.model.js,
 * src/models/overrideRequest.model.js and src/models/jobResult.model.js.
 * Ids (ObjectIds) are strings, the empty string standing for a missing id; dates are
 * milliseconds since the epoch.  An enum becomes a datatype; a schema's `required`,
 * `enum`, `unique` and setter rules become the predicates and functions below.
 */
module Models {
  import opened Common

  // ---------------------------------------------------------------- users

  datatype Role = Student | Lecturer

  const Levels: seq<string> := ["100L", "200L", "300L", "400L", "500L", "600L"]

  /**
   * A user record.  `deviceId` and `selfie` default to null (None).  `programme` and
   * `isActivated` are not declared by the schema; they are here because the extract-data
   * worker writes them.  `level` is a plain string because updates bypass the enum check.
   */
  datatype User = User(
    id: string,
    name: string,
    role: Role,
    email: Option<string>,
    matricNumber: Option<string>,
    level: Option<string>,
    password: string,
    deviceId: Option<string>,
    selfie: Option<string>,
    selectedCourses: seq<string>,
    programme: Option<string>,
    isActivated: bool)

  /** The characters `String.prototype.trim` removes: white space and line terminators. */
  predicate IsTrimSpace(c: char) {
    c == '\t' || c == '\n' || c == '\U{000B}' || c == '\U{000C}' || c == '\r' || c == ' '
    || c == '\U{00A0}' || c == '\U{1680}' || ('\U{2000}' <= c <= '\U{200A}')
    || c == '\U{2028}' || c == '\U{2029}' || c == '\U{202F}' || c == '\U{205F}'
    || c == '\U{3000}' || c == '\U{FEFF}'
  }

  /** No white space at either end. */
  predicate Trimmed(s: string) {
    s == [] || (!IsTrimSpace(s[0]) && !IsTrimSpace(s[|s| - 1]))
  }

  function TrimStart(s: string): (r: string)
    ensures |r| <= |s| && r == s[|s| - |r|..]
    ensures r == [] || !IsTrimSpace(r[0])
  {
    if s != [] && IsTrimSpace(s[0]) then TrimStart(s[1..]) else s
  }

  function TrimEnd(s: string): (r: string)
    ensures |r| <= |s| && r == s[..|r|]
    ensures r == [] || !IsTrimSpace(r[|r| - 1])
  {
    if s != [] && IsTrimSpace(s[|s| - 1]) then TrimEnd(s[..|s| - 1]) else s
  }

  /** `String.prototype.trim`: the result is a slice of the input with no white space at either end. */
  function Trim(s: string): (r: string)
    ensures Trimmed(r)
    ensures |r| <= |s|
    ensures forall k :: 0 <= k < |r| ==> r[k] in s
  {
    var t := TrimStart(s);
    var r := TrimEnd(t);
    assert forall k :: 0 <= k < |r| ==> r[k] == s[|s| - |t| + k];
    r
  }

  /** Trimming changes nothing that is already trimmed. */
  lemma TrimOfTrimmed(s: string)
    requires Trimmed(s)
    ensures Trim(s) == s
  {
  }

  predicate IsLowerAscii(c: char) {
    'a' <= c <= 'z'
  }

  predicate IsUpperAscii(c: char) {
    'A' <= c <= 'Z'
  }

  /** The `uppercase: true` setter, on ASCII letters. */
  function ToUpper(s: string): (r: string)
    ensures |r| == |s|
    ensures forall k :: 0 <= k < |s| ==> !IsLowerAscii(r[k])
    ensures forall k :: 0 <= k < |s| ==> (IsLowerAscii(s[k]) || r[k] == s[k])
  {
    seq(|s|, k requires 0 <= k < |s| =>
      if IsLowerAscii(s[k]) then (s[k] as int - 'a' as int + 'A' as int) as char else s[k])
  }

  /** The `lowercase: true` setter, on ASCII letters. */
  function ToLower(s: string): (r: string)
    ensures |r| == |s|
    ensures forall k :: 0 <= k < |s| ==> !IsUpperAscii(r[k])
    ensures forall k :: 0 <= k < |s| ==> (IsUpperAscii(s[k]) || r[k] == s[k])
  {
    seq(|s|, k requires 0 <= k < |s| =>
      if IsUpperAscii(s[k]) then (s[k] as int - 'A' as int + 'a' as int) as char else s[k])
  }

  /** The stored form of a matric number: upper-cased, then trimmed (the setters run in declaration order). */
  function NormalizeMatric(m: string): string {
    Trim(ToUpper(m))
  }

  /** The stored form of an email: lower-cased, then trimmed. */
  function NormalizeEmail(e: string): string {
    Trim(ToLower(e))
  }

  /** Storing an already stored matric number changes nothing. */
  lemma NormalizeMatricIdempotent(m: string)
    ensures NormalizeMatric(NormalizeMatric(m)) == NormalizeMatric(m)
  {
    var u := ToUpper(m);
    var t := Trim(u);
    assert ToUpper(t) == t;
    TrimOfTrimmed(t);
  }

  /** Storing an already stored email changes nothing. */
  lemma NormalizeEmailIdempotent(e: string)
    ensures NormalizeEmail(NormalizeEmail(e)) == NormalizeEmail(e)
  {
    var l := ToLower(e);
    var t := Trim(l);
    assert ToLower(t) == t;
    TrimOfTrimmed(t);
  }

  /** What `.` in a JavaScript regular expression does not match. */
  predicate IsLineTerminator(c: char) {
    c == '\n' || c == '\r' || c == '\U{2028}' || c == '\U{2029}'
  }

  /** No line terminator among s[lo..hi]. */
  predicate LineFree(s: string, lo: int, hi: int)
    requires 0 <= lo <= hi <= |s|
  {
    forall k :: lo <= k < hi ==> !IsLineTerminator(s[k])
  }

  /** `.+@.+\..+` matches with its '@' at index `at` and its '.' at index `dot`. */
  predicate EmailMatchAt(s: string, at: int, dot: int) {
    && 1 <= at && at + 2 <= dot && dot + 2 <= |s|
    && s[at] == '@' && s[dot] == '.'
    && !IsLineTerminator(s[at - 1])
    && LineFree(s, at + 1, dot)
    && !IsLineTerminator(s[dot + 1])
  }

  /** The unanchored email pattern `.+@.+\..+`: somewhere, a character, '@', characters, '.', a character. */
  predicate MatchesEmailPattern(s: string) {
    exists at, dot :: 0 <= at < dot < |s| && EmailMatchAt(s, at, dot)
  }

  lemma EmailPatternExamples()
    ensures MatchesEmailPattern("ada@uni.ng")
    ensures !MatchesEmailPattern("ada@ng")
  {
    assert EmailMatchAt("ada@uni.ng", 3, 7);
  }

  /** A user record the schema accepts. */
  predicate ValidUser(u: User) {
    && u.name != "" && Trimmed(u.name)
    && u.password != ""
    && (u.email.Some? ==> NormalizeEmail(u.email.value) == u.email.value && MatchesEmailPattern(u.email.value))
    && (u.matricNumber.Some? ==> NormalizeMatric(u.matricNumber.value) == u.matricNumber.value)
    && (u.level.Some? ==> u.level.value in Levels)
  }

  /** The unique sparse index on matricNumber: no two users share a present matric number. */
  predicate UniqueMatric(users: seq<User>) {
    forall i, j :: 0 <= i < j < |users| && users[i].matricNumber.Some? ==> users[i].matricNumber != users[j].matricNumber
  }

  /**
   * The invariant the device validators are meant to keep: a device is held by at most one
   * user.  The schema itself does not enforce it (deviceId has no unique index).
   */
  predicate DeviceExclusive(users: seq<User>) {
    forall i, j :: 0 <= i < j < |users| && users[i].deviceId.Some? ==> users[i].deviceId != users[j].deviceId
  }

  // ---------------------------------------------------------------- courses and locations

  datatype Course = Course(id: string, name: string, students: seq<string>)

  datatype Corner = Corner(latitude: real, longitude: real)

  datatype Location = Location(id: string, name: string, corners: seq<Corner>)

  // ---------------------------------------------------------------- sessions

  datatype SessionStatus = Active | Ended

  /**
   * An attendance entry.  The schema declares no matricNumber; the controllers write one
   * and the duplicate check compares on it, so it is kept here (None when the writer had none).
   */
  datatype Attendee = Attendee(
    studentId: string,
    matricNumber: Option<string>,
    selfie: string,
    deviceIdUsed: string,
    timestamp: int)

  datatype Session = Session(
    id: string,
    courseId: string,
    lecturerId: string,
    locationId: string,
    startTime: int,
    endTime: int,
    attendees: seq<Attendee>,
    status: SessionStatus)

  /** studentId, selfie and deviceIdUsed are required on every entry. */
  predicate ValidAttendee(a: Attendee) {
    a.studentId != "" && a.selfie != "" && a.deviceIdUsed != ""
  }

  /** A session document the schema accepts on save.  Nothing relates startTime to endTime. */
  predicate ValidSessionDoc(s: Session) {
    && s.courseId != "" && s.lecturerId != "" && s.locationId != ""
    && forall k :: 0 <= k < |s.attendees| ==> ValidAttendee(s.attendees[k])
  }

  /**
   * What default strict mode saves of an entry.  The attendee subschema declares no
   * matricNumber, so the stored entry has none, whatever the controller pushed.
   */
  function StoredAttendee(a: Attendee): (r: Attendee)
    ensures r.matricNumber.None?
    ensures r.(matricNumber := a.matricNumber) == a
  {
    a.(matricNumber := None)
  }

  /** A session as strict mode saves it: every entry loses its matric number, nothing else changes. */
  function StoredSession(s: Session): (r: Session)
    ensures r.(attendees := s.attendees) == s
    ensures |r.attendees| == |s.attendees|
    ensures forall k :: 0 <= k < |r.attendees| ==> r.attendees[k] == StoredAttendee(s.attendees[k])
    ensures ValidSessionDoc(r) <==> ValidSessionDoc(s)
  {
    s.(attendees := seq(|s.attendees|, k requires 0 <= k < |s.attendees| => StoredAttendee(s.attendees[k])))
  }

  // ---------------------------------------------------------------- override requests

  datatype OverrideStatus = Pending | Approved | Denied

  function OverrideStatusName(s: OverrideStatus): string {
    match s
    case Pending => "pending"
    case Approved => "approved"
    case Denied => "denied"
  }

  /**
   * An override request.  `matricNumber` is not declared by the schema but is written and
   * queried by the controller, so it is kept.  `createdAt` is the schema timestamp.
   */
  datatype OverrideRequest = OverrideRequest(
    id: string,
    studentId: string,
    sessionId: string,
    matricNumber: string,
    selfie: string,
    originalOwnerMatric: Option<string>,
    originalOwnerSelfie: Option<string>,
    status: OverrideStatus,
    lecturerId: Option<string>,
    decisionTimestamp: Option<int>,
    createdAt: int)

  /**
   * What default strict mode saves of a request: the schema declares no matricNumber, so the
   * stored request has none (written here as the empty string, which no query for a
   * required, hence non-empty, matric number matches).
   */
  function StoredRequest(o: OverrideRequest): (r: OverrideRequest)
    ensures r.matricNumber == ""
    ensures r.(matricNumber := o.matricNumber) == o
  {
    o.(matricNumber := "")
  }

  function StoredRequests(rs: seq<OverrideRequest>): (r: seq<OverrideRequest>)
    ensures |r| == |rs|
    ensures forall k :: 0 <= k < |r| ==> r[k] == StoredRequest(rs[k])
  {
    seq(|rs|, k requires 0 <= k < |rs| => StoredRequest(rs[k]))
  }

  predicate Present(v: Option<string>) {
    v.Some? && v.value != ""
  }

  /** studentId, sessionId, selfie and both original-owner snapshots are required. */
  predicate ValidOverrideDoc(o: OverrideRequest) {
    && o.studentId != "" && o.sessionId != "" && o.selfie != ""
    && Present(o.originalOwnerMatric) && Present(o.originalOwnerSelfie)
  }

  // ---------------------------------------------------------------- job results

  /** The job kinds the code writes: the schema's two, plus the literal 'attendance' the worker uses. */
  datatype JobType = ExtractData | MarkAttendance | AttendanceLiteral

  /** The schema's enum admits 'extract-data' and 'mark-attendance' only. */
  predicate JobTypeInEnum(t: JobType) {
    t == ExtractData || t == MarkAttendance
  }

  datatype JobStatus = Completed | Failed

  /** What OCR extraction yields; an empty string stands for a field it could not read. */
  datatype ExtractedData = ExtractedData(matricNumber: string, name: string, programme: string, level: string)

  /** The result the attendance handlers return on success. */
  datatype AttendanceReceipt = AttendanceReceipt(sessionName: string, timestamp: int, attendeeCount: nat)

  datatype JobPayload =
    | ExtractedPayload(data: ExtractedData)
    | ReceiptPayload(receipt: AttendanceReceipt)
    | OverridePayload(requiresOverride: bool, conflict: Option<ConflictInfo>)

  datatype JobResult = JobResult(
    jobId: string,
    userId: string,
    jobType: JobType,
    status: JobStatus,
    result: Option<JobPayload>,
    error: Option<string>)

  /** jobId, userId, type and status are required; type must be in the enum. */
  predicate ValidJobResultDoc(r: JobResult) {
    r.jobId != "" && r.userId != "" && JobTypeInEnum(r.jobType)
  }

  /** The unique index on jobId. */
  predicate UniqueJobIds(rs: seq<JobResult>) {
    forall i, j :: 0 <= i < j < |rs| ==> rs[i].jobId != rs[j].jobId
  }

  /** Is a job result with this id stored? */
  predicate HasJobResult(rs: seq<JobResult>, jobId: string) {
    exists k :: 0 <= k < |rs| && rs[k].jobId == jobId
  }
}
