/**
 * src/queues/workers.js: the extract-data and mark-attendance job handlers and the
 * startup retry loop.  A handler's outcome is `Ok` when it returns and `Err` carrying the
 * error it throws; every `JobResult.create` goes through `JobResultStore.Create`, whose
 * refusals (schema validation, duplicate jobId) throw in place of the handler's own error.
 */
module Workers {
  import opened Common
  import opened RequiredFields
  import opened Models
  import opened Stores
  import opened AttendanceUtils
  import opened StudentController

  // ---------------------------------------------------------------- writing a failed JobResult

  /** What is thrown after a failed-result create, and the results left behind. */
  datatype FailureRecord = FailureRecord(thrown: ApiError, results: seq<JobResult>)

  /**
   * `await JobResult.create(doc); throw err`: when the create is refused its own error is
   * thrown instead of `err` and nothing is stored.
   */
  function AfterFailedCreate(results: seq<JobResult>, doc: JobResult, err: ApiError): (f: FailureRecord)
    ensures CreateAccepts(results, doc) ==> f.thrown == err && f.results == results + [doc]
    ensures !CreateAccepts(results, doc) ==> f.thrown == CreateError(results, doc) && f.results == results
    ensures f.thrown.Uncaught? || f.thrown == err
  {
    if CreateAccepts(results, doc) then FailureRecord(err, results + [doc])
    else FailureRecord(CreateError(results, doc), results)
  }

  method RecordFailure(results: JobResultStore, doc: JobResult, err: ApiError) returns (thrown: ApiError)
    modifies results
    ensures FailureRecord(thrown, results.results) == AfterFailedCreate(old(results.results), doc, err)
  {
    var before := results.results;
    var ok := results.Create(doc);
    thrown := if ok then err else CreateError(before, doc);
  }

  /** A failed create leaves the one-result-per-job index intact. */
  lemma FailedCreateKeepsUniqueJobIds(results: seq<JobResult>, doc: JobResult, err: ApiError)
    requires UniqueJobIds(results)
    ensures UniqueJobIds(AfterFailedCreate(results, doc, err).results)
  {
    if CreateAccepts(results, doc) {
      CreatePreservesUniqueJobIds(results, doc);
    }
  }

  // ---------------------------------------------------------------- extract-data

  const IncompleteDataMessage := "Incomplete data extracted from image"

  /** Each of the four extracted fields is truthy. */
  predicate Complete(d: ExtractedData) {
    d.matricNumber != "" && d.name != "" && d.programme != "" && d.level != ""
  }

  function ExtractFailedDoc(jobId: string, userId: string, message: string): JobResult {
    JobResult(jobId, userId, ExtractData, Failed, None, Some(message))
  }

  function ExtractCompletedDoc(jobId: string, userId: string, data: ExtractedData): JobResult {
    JobResult(jobId, userId, ExtractData, Completed, Some(ExtractedPayload(data)), None)
  }

  /** The handler's catch block: one more failed create carrying the caught error's message, then a rethrow. */
  function Caught(results: seq<JobResult>, jobId: string, userId: string, err: ApiError): FailureRecord {
    AfterFailedCreate(results, ExtractFailedDoc(jobId, userId, err.message), err)
  }

  datatype ExtractEffect = ExtractEffect(outcome: Result<ExtractedData>, users: seq<User>, results: seq<JobResult>)

  /**
   * The extract-data handler.  `ocr` is what `extractStudentDataFromImage` returned or threw.
   * Incomplete data is recorded once and thrown; the catch block then records again under
   * the same jobId.  Complete data updates the user and records one completed result.
   */
  function ExtractDataEffect(users: seq<User>, results: seq<JobResult>, ocr: Result<ExtractedData>,
                             jobId: string, userId: string): (e: ExtractEffect)
    ensures e.outcome.Ok? ==> ocr.Ok? && e.outcome.value == ocr.value && Complete(ocr.value)
    ensures |results| <= |e.results| <= |results| + 2
  {
    match ocr
    case Err(err) =>
      var f := Caught(results, jobId, userId, err);
      ExtractEffect(Err(f.thrown), users, f.results)
    case Ok(data) =>
      if !Complete(data) then
        var first := AfterFailedCreate(results, ExtractFailedDoc(jobId, userId, IncompleteDataMessage), BadRequest(IncompleteDataMessage));
        var f := Caught(first.results, jobId, userId, first.thrown);
        ExtractEffect(Err(f.thrown), users, f.results)
      else if !ActivationAllowed(users, userId, data) then
        var f := Caught(results, jobId, userId, Uncaught(DuplicateKeyMessage));
        ExtractEffect(Err(f.thrown), users, f.results)
      else
        var activated := Activated(users, userId, data);
        var doc := ExtractCompletedDoc(jobId, userId, data);
        if !CreateAccepts(results, doc) then
          var f := Caught(results, jobId, userId, CreateError(results, doc));
          ExtractEffect(Err(f.thrown), activated, f.results)
        else
          ExtractEffect(Ok(data), activated, results + [doc])
  }

  method CatchExtractFailure(results: JobResultStore, jobId: string, userId: string, err: ApiError) returns (thrown: ApiError)
    modifies results
    ensures FailureRecord(thrown, results.results) == Caught(old(results.results), jobId, userId, err)
  {
    thrown := RecordFailure(results, ExtractFailedDoc(jobId, userId, err.message), err);
  }

  /** The extract-data job handler, one store operation per step. */
  method HandleExtractData(users: UserStore, results: JobResultStore, ocr: Result<ExtractedData>, jobId: string, userId: string)
    returns (r: Result<ExtractedData>)
    modifies users, results
    ensures ExtractEffect(r, users.users, results.results) == ExtractDataEffect(old(users.users), old(results.results), ocr, jobId, userId)
  {
    if ocr.Err? {
      var thrown := CatchExtractFailure(results, jobId, userId, ocr.error);
      return Err(thrown);
    }
    var data := ocr.value;
    if !Complete(data) {
      var first := RecordFailure(results, ExtractFailedDoc(jobId, userId, IncompleteDataMessage), BadRequest(IncompleteDataMessage));
      var thrown := CatchExtractFailure(results, jobId, userId, first);
      return Err(thrown);
    }
    var updated := users.ApplyExtracted(userId, data);
    if !updated {
      var thrown := CatchExtractFailure(results, jobId, userId, Uncaught(DuplicateKeyMessage));
      return Err(thrown);
    }
    var doc := ExtractCompletedDoc(jobId, userId, data);
    var before := results.results;
    var created := results.Create(doc);
    if !created {
      var thrown := CatchExtractFailure(results, jobId, userId, CreateError(before, doc));
      return Err(thrown);
    }
    return Ok(data);
  }

  /**
   * Incomplete data is recorded by the first create; the catch block's second create for the
   * same job is then refused by the unique index, so the job fails with the duplicate-key
   * error rather than the incomplete-data one, and the user is untouched.
   */
  lemma IncompleteDataRecordedOnce(users: seq<User>, results: seq<JobResult>, data: ExtractedData, jobId: string, userId: string)
    requires !Complete(data)
    requires jobId != "" && userId != "" && !HasJobResult(results, jobId)
    ensures var e := ExtractDataEffect(users, results, Ok(data), jobId, userId);
      && e.results == results + [ExtractFailedDoc(jobId, userId, IncompleteDataMessage)]
      && e.outcome == Err(Uncaught(DuplicateKeyMessage))
      && e.users == users
  {
    var doc := ExtractFailedDoc(jobId, userId, IncompleteDataMessage);
    SecondCreateRefused(results, doc, ExtractFailedDoc(jobId, userId, IncompleteDataMessage));
  }

  /** Complete data for a known user activates the account and records one completed result carrying the data. */
  lemma CompleteDataActivatesAccount(users: seq<User>, results: seq<JobResult>, data: ExtractedData, jobId: string, userId: string)
    requires Complete(data) && ActivationAllowed(users, userId, data) && UserById(users, userId).Some?
    requires jobId != "" && userId != "" && !HasJobResult(results, jobId)
    ensures var e := ExtractDataEffect(users, results, Ok(data), jobId, userId);
      var k := UserById(users, userId).value;
      && e.outcome == Ok(data)
      && e.results == results + [ExtractCompletedDoc(jobId, userId, data)]
      && e.users[k].isActivated && e.users[k].name == data.name && e.users[k].level == Some(data.level)
  {
  }

  /** Whatever the OCR outcome, the handler never stores two results for one job. */
  lemma ExtractKeepsOneResultPerJob(users: seq<User>, results: seq<JobResult>, ocr: Result<ExtractedData>, jobId: string, userId: string)
    requires UniqueJobIds(results)
    ensures UniqueJobIds(ExtractDataEffect(users, results, ocr, jobId, userId).results)
  {
    match ocr
    case Err(err) =>
      FailedCreateKeepsUniqueJobIds(results, ExtractFailedDoc(jobId, userId, err.message), err);
    case Ok(data) =>
      if !Complete(data) {
        var doc := ExtractFailedDoc(jobId, userId, IncompleteDataMessage);
        var first := AfterFailedCreate(results, doc, BadRequest(IncompleteDataMessage));
        FailedCreateKeepsUniqueJobIds(results, doc, BadRequest(IncompleteDataMessage));
        FailedCreateKeepsUniqueJobIds(first.results, ExtractFailedDoc(jobId, userId, first.thrown.message), first.thrown);
      } else if !ActivationAllowed(users, userId, data) {
        FailedCreateKeepsUniqueJobIds(results, ExtractFailedDoc(jobId, userId, DuplicateKeyMessage), Uncaught(DuplicateKeyMessage));
      } else {
        var doc := ExtractCompletedDoc(jobId, userId, data);
        if CreateAccepts(results, doc) {
          CreatePreservesUniqueJobIds(results, doc);
        } else {
          var err := CreateError(results, doc);
          FailedCreateKeepsUniqueJobIds(results, ExtractFailedDoc(jobId, userId, err.message), err);
        }
      }
  }

  // ---------------------------------------------------------------- mark-attendance

  /** The type the handler writes on every mark-attendance result: 'attendance', which the schema's enum lacks. */
  const WrittenMarkJobType := AttendanceLiteral

  datatype MarkJob = MarkJob(
    sessionId: string,
    deviceId: string,
    selfie: string,
    latitude: real,
    longitude: real,
    matricNumber: string,
    userId: string)

  /** The same fields as the controller's request body. */
  function AsMarkRequest(job: MarkJob): MarkRequest {
    MarkRequest(job.sessionId, job.deviceId, job.selfie, job.latitude, job.longitude, job.matricNumber)
  }

  /** `attendance:${sessionId}` */
  function AttendanceChannel(sessionId: string): string {
    "attendance:" + sessionId
  }

  /** The failed result for a refused check; a device conflict also carries the override hint. */
  function MarkFailedDoc(jobId: string, userId: string, jobType: JobType, err: ApiError): (doc: JobResult)
    ensures doc.status == Failed && doc.error == Some(err.message) && doc.jobId == jobId && doc.jobType == jobType
    ensures err.DeviceConflict? ==> doc.result == Some(OverridePayload(true, err.conflict))
    ensures !err.DeviceConflict? ==> doc.result == None
  {
    var payload := if err.DeviceConflict? then Some(OverridePayload(true, err.conflict)) else None;
    JobResult(jobId, userId, jobType, Failed, payload, Some(err.message))
  }

  function MarkCompletedDoc(jobId: string, userId: string, jobType: JobType, receipt: AttendanceReceipt): JobResult {
    JobResult(jobId, userId, jobType, Completed, Some(ReceiptPayload(receipt)), None)
  }

  datatype WorkerEffect = WorkerEffect(
    outcome: Result<AttendanceReceipt>,
    sessions: seq<Session>,
    users: seq<User>,
    results: seq<JobResult>,
    published: seq<Publication>)

  /**
   * The mark-attendance handler, with `jobType` the type it writes on its results.  The
   * checks are the controller's, less the field and selfie checks; a missing location or
   * course throws a null dereference without a result being written.
   */
  function MarkJobEffect(sessions: seq<Session>, users: seq<User>, results: seq<JobResult>, published: seq<Publication>,
                         courses: seq<Course>, locations: seq<Location>, job: MarkJob, jobId: string, jobType: JobType,
                         now: int): (e: WorkerEffect)
    ensures |e.sessions| == |sessions| && |e.users| == |users|
    ensures |published| <= |e.published| <= |published| + 1 && e.published[..|published|] == published
  {
    var req := AsMarkRequest(job);
    match SessionChecks(sessions, locations, job.sessionId, job.matricNumber, job.latitude, job.longitude, now)
    case Err(err) =>
      if err.Uncaught? then WorkerEffect(Err(err), sessions, users, results, published)
      else
        var f := AfterFailedCreate(results, MarkFailedDoc(jobId, job.userId, jobType, err), err);
        WorkerEffect(Err(f.thrown), sessions, users, f.results, published)
    case Ok(k) =>
      var bound := AfterDeviceValidation(users, job.matricNumber, job.deviceId);
      match DeviceDecision(users, job.matricNumber, job.deviceId)
      case DeviceRejected(message, conflict) =>
        var err := DeviceConflict(message, Some(conflict));
        var f := AfterFailedCreate(results, MarkFailedDoc(jobId, job.userId, jobType, err), err);
        WorkerEffect(Err(f.thrown), sessions, bound, f.results, published)
      case DeviceAccepted =>
        match UserByMatric(bound, job.matricNumber)
        case None =>
          var err := NotFound(StudentNotFoundByMatricMessage);
          var f := AfterFailedCreate(results, MarkFailedDoc(jobId, job.userId, jobType, err), err);
          WorkerEffect(Err(f.thrown), sessions, bound, f.results, published)
        case Some(u) =>
          var updated := AppendAttendee(sessions[k], MarkedEntry(bound[u].id, req, now));
          if !ValidSessionDoc(updated) then WorkerEffect(Err(Uncaught(ValidationFailedMessage)), sessions, bound, results, published)
          else
            match CourseById(courses, sessions[k].courseId)
            case None => WorkerEffect(Err(Uncaught(NullReferenceMessage)), sessions[k := updated], bound, results, published)
            case Some(c) =>
              var receipt := AttendanceReceipt(courses[c].name, now, |updated.attendees|);
              var doc := MarkCompletedDoc(jobId, job.userId, jobType, receipt);
              if !CreateAccepts(results, doc) then
                WorkerEffect(Err(CreateError(results, doc)), sessions[k := updated], bound, results, published)
              else
                var event := LiveEvent(job.matricNumber, bound[u].name, bound[u].level, now);
                WorkerEffect(Ok(receipt), sessions[k := updated], bound, results + [doc],
                             published + [Publication(AttendanceChannel(job.sessionId), event)])
  }

  /** The mark-attendance job handler, one store operation per step. */
  method HandleMarkAttendance(sessions: SessionStore, users: UserStore, results: JobResultStore, channel: EventChannel,
                              courses: seq<Course>, locations: seq<Location>, job: MarkJob, jobId: string,
                              jobType: JobType, now: int) returns (r: Result<AttendanceReceipt>)
    modifies sessions, users, results, channel
    ensures WorkerEffect(r, sessions.sessions, users.users, results.results, channel.published)
         == MarkJobEffect(old(sessions.sessions), old(users.users), old(results.results), old(channel.published),
                          courses, locations, job, jobId, jobType, now)
  {
    var checks := SessionChecks(sessions.sessions, locations, job.sessionId, job.matricNumber, job.latitude, job.longitude, now);
    if checks.Err? {
      if checks.error.Uncaught? {
        return Err(checks.error);
      }
      var thrown := RecordFailure(results, MarkFailedDoc(jobId, job.userId, jobType, checks.error), checks.error);
      return Err(thrown);
    }
    var k := checks.value;
    var device := HandleDeviceValidation(users, job.matricNumber, job.deviceId);
    if device.DeviceRejected? {
      var err := DeviceConflict(device.message, Some(device.conflict));
      var thrown := RecordFailure(results, MarkFailedDoc(jobId, job.userId, jobType, err), err);
      return Err(thrown);
    }
    var student := UserByMatric(users.users, job.matricNumber);
    if student.None? {
      var err := NotFound(StudentNotFoundByMatricMessage);
      var thrown := RecordFailure(results, MarkFailedDoc(jobId, job.userId, jobType, err), err);
      return Err(thrown);
    }
    var user := users.users[student.value];
    var session := sessions.sessions[k];
    var updated := AppendAttendee(session, MarkedEntry(user.id, AsMarkRequest(job), now));
    var saved := sessions.Save(k, updated);
    if !saved {
      return Err(Uncaught(ValidationFailedMessage));
    }
    var course := CourseById(courses, session.courseId);
    if course.None? {
      return Err(Uncaught(NullReferenceMessage));
    }
    var receipt := AttendanceReceipt(courses[course.value].name, now, |updated.attendees|);
    var doc := MarkCompletedDoc(jobId, job.userId, jobType, receipt);
    var before := results.results;
    var created := results.Create(doc);
    if !created {
      return Err(CreateError(before, doc));
    }
    channel.Publish(AttendanceChannel(job.sessionId), LiveEvent(job.matricNumber, user.name, user.level, now));
    return Ok(receipt);
  }

  /**
   * The worker runs the controller's chain: once the controller's field and selfie checks
   * pass, both leave the same sessions and users behind, and a job that succeeds returns the
   * controller's receipt.
   */
  lemma WorkerAgreesWithController(sessions: seq<Session>, users: seq<User>, results: seq<JobResult>,
                                   published: seq<Publication>, courses: seq<Course>, locations: seq<Location>,
                                   job: MarkJob, jobId: string, jobType: JobType, now: int)
    requires ValidateRequiredFields(MarkFields, MarkBody(AsMarkRequest(job))).Pass?
    requires IsValidBase64Image(job.selfie)
    ensures var w := MarkJobEffect(sessions, users, results, published, courses, locations, job, jobId, jobType, now);
      var c := MarkAttendanceEffect(sessions, users, courses, locations, AsMarkRequest(job), now);
      && w.sessions == c.sessions && w.users == c.users
      && (w.outcome.Ok? ==> c.result == w.outcome)
  {
  }

  /**
   * With the enum's own type, every refused check (other than a null dereference) is
   * recorded as exactly one failed result carrying that check's message, and nothing else
   * is written.
   */
  lemma MarkJobRecordsCheckFailure(sessions: seq<Session>, users: seq<User>, results: seq<JobResult>,
                                   published: seq<Publication>, courses: seq<Course>, locations: seq<Location>,
                                   job: MarkJob, jobId: string, now: int)
    requires jobId != "" && job.userId != "" && !HasJobResult(results, jobId)
    requires SessionChecks(sessions, locations, job.sessionId, job.matricNumber, job.latitude, job.longitude, now).Err?
    requires !SessionChecks(sessions, locations, job.sessionId, job.matricNumber, job.latitude, job.longitude, now).error.Uncaught?
    ensures var err := SessionChecks(sessions, locations, job.sessionId, job.matricNumber, job.latitude, job.longitude, now).error;
      var e := MarkJobEffect(sessions, users, results, published, courses, locations, job, jobId, MarkAttendance, now);
      && e.outcome == Err(err)
      && e.results == results + [MarkFailedDoc(jobId, job.userId, MarkAttendance, err)]
      && e.results[|results|].error == Some(err.message)
      && e.sessions == sessions && e.users == users && e.published == published
  {
  }

  /** A device conflict is recorded with the override hint and the holder's details. */
  lemma MarkJobRecordsDeviceConflict(sessions: seq<Session>, users: seq<User>, results: seq<JobResult>,
                                     published: seq<Publication>, courses: seq<Course>, locations: seq<Location>,
                                     job: MarkJob, jobId: string, now: int)
    requires jobId != "" && job.userId != "" && !HasJobResult(results, jobId)
    requires SessionChecks(sessions, locations, job.sessionId, job.matricNumber, job.latitude, job.longitude, now).Ok?
    requires DeviceDecision(users, job.matricNumber, job.deviceId).DeviceRejected?
    ensures var d := DeviceDecision(users, job.matricNumber, job.deviceId);
      var err := DeviceConflict(d.message, Some(d.conflict));
      var e := MarkJobEffect(sessions, users, results, published, courses, locations, job, jobId, MarkAttendance, now);
      && e.outcome == Err(err)
      && e.results == results + [MarkFailedDoc(jobId, job.userId, MarkAttendance, err)]
      && e.results[|results|].status == Failed
      && e.results[|results|].error == Some(DeviceTakenMessage)
      && e.results[|results|].result == Some(OverridePayload(true, Some(d.conflict)))
      && e.sessions == sessions && e.users == users && e.published == published
  {
  }

  /**
   * An accepted device whose student is not found by matric number: one failed result with
   * the 404 message, the error thrown, the device binding (if any) kept, nothing else written.
   */
  lemma MarkJobRecordsMissingStudent(sessions: seq<Session>, users: seq<User>, results: seq<JobResult>,
                                     published: seq<Publication>, courses: seq<Course>, locations: seq<Location>,
                                     job: MarkJob, jobId: string, now: int)
    requires jobId != "" && job.userId != "" && !HasJobResult(results, jobId)
    requires SessionChecks(sessions, locations, job.sessionId, job.matricNumber, job.latitude, job.longitude, now).Ok?
    requires DeviceDecision(users, job.matricNumber, job.deviceId).DeviceAccepted?
    requires UserByMatric(AfterDeviceValidation(users, job.matricNumber, job.deviceId), job.matricNumber).None?
    ensures var err := NotFound(StudentNotFoundByMatricMessage);
      var e := MarkJobEffect(sessions, users, results, published, courses, locations, job, jobId, MarkAttendance, now);
      && e.outcome == Err(err)
      && e.results == results + [MarkFailedDoc(jobId, job.userId, MarkAttendance, err)]
      && e.results[|results|].error == Some(StudentNotFoundByMatricMessage)
      && e.users == AfterDeviceValidation(users, job.matricNumber, job.deviceId)
      && e.sessions == sessions && e.published == published
  {
  }

  /**
   * With the enum's own type, a successful job appends one entry, then records one completed
   * result whose count is the new length, then publishes one event on the session's channel.
   */
  lemma MarkJobSuccessRecordsAndPublishes(sessions: seq<Session>, users: seq<User>, results: seq<JobResult>,
                                          published: seq<Publication>, courses: seq<Course>, locations: seq<Location>,
                                          job: MarkJob, jobId: string, now: int)
    requires MarkJobEffect(sessions, users, results, published, courses, locations, job, jobId, MarkAttendance, now).outcome.Ok?
    ensures SessionById(sessions, job.sessionId).Some?
    ensures var e := MarkJobEffect(sessions, users, results, published, courses, locations, job, jobId, MarkAttendance, now);
      var k := SessionById(sessions, job.sessionId).value;
      && |e.sessions[k].attendees| == |sessions[k].attendees| + 1
      && e.sessions[k].attendees[..|sessions[k].attendees|] == sessions[k].attendees
      && e.sessions[k].attendees[|sessions[k].attendees|].matricNumber == Some(job.matricNumber)
      && e.results == results + [MarkCompletedDoc(jobId, job.userId, MarkAttendance, e.outcome.value)]
      && e.outcome.value.attendeeCount == |sessions[k].attendees| + 1
      && |e.published| == |published| + 1
      && e.published[|published|].channel == AttendanceChannel(job.sessionId)
      && e.published[|published|].event.matricNumber == job.matricNumber
      && e.published[|published|].event.timestamp == now
  {
    var k := SessionById(sessions, job.sessionId).value;
    var e := MarkJobEffect(sessions, users, results, published, courses, locations, job, jobId, MarkAttendance, now);
    assert e.sessions[k].attendees[..|sessions[k].attendees|] == sessions[k].attendees;
  }

  /**
   * As written, every result the handler writes has type 'attendance', which the schema
   * refuses: no result is ever stored, every job ends in an error, and nothing is published.
   */
  lemma WrittenMarkJobStoresNothing(sessions: seq<Session>, users: seq<User>, results: seq<JobResult>,
                                    published: seq<Publication>, courses: seq<Course>, locations: seq<Location>,
                                    job: MarkJob, jobId: string, now: int)
    ensures var e := MarkJobEffect(sessions, users, results, published, courses, locations, job, jobId, WrittenMarkJobType, now);
      && e.results == results && e.published == published && e.outcome.Err?
  {
  }

  /**
   * As written, a job that passes every check still appends the entry, and then fails with the
   * schema's validation error instead of returning the receipt.
   */
  lemma WrittenMarkJobFailsAfterSaving(sessions: seq<Session>, users: seq<User>, results: seq<JobResult>,
                                       published: seq<Publication>, courses: seq<Course>, locations: seq<Location>,
                                       job: MarkJob, jobId: string, now: int)
    requires MarkJobEffect(sessions, users, results, published, courses, locations, job, jobId, MarkAttendance, now).outcome.Ok?
    ensures var intended := MarkJobEffect(sessions, users, results, published, courses, locations, job, jobId, MarkAttendance, now);
      var written := MarkJobEffect(sessions, users, results, published, courses, locations, job, jobId, WrittenMarkJobType, now);
      && written.sessions == intended.sessions
      && written.outcome == Err(Uncaught(ValidationFailedMessage))
      && |intended.results| == |results| + 1 && written.results == results
  {
  }

  /** The mark handler never stores two results for one job. */
  lemma MarkJobKeepsOneResultPerJob(sessions: seq<Session>, users: seq<User>, results: seq<JobResult>,
                                    published: seq<Publication>, courses: seq<Course>, locations: seq<Location>,
                                    job: MarkJob, jobId: string, jobType: JobType, now: int)
    requires UniqueJobIds(results)
    ensures UniqueJobIds(MarkJobEffect(sessions, users, results, published, courses, locations, job, jobId, jobType, now).results)
  {
    var e := MarkJobEffect(sessions, users, results, published, courses, locations, job, jobId, jobType, now);
    if |e.results| != |results| {
      var doc := e.results[|results|];
      assert e.results == results + [doc];
      assert CreateAccepts(results, doc);
      CreatePreservesUniqueJobIds(results, doc);
    }
  }

  // ---------------------------------------------------------------- startWorkers

  const MaxRetries := 5

  function Pow2(n: nat): (p: nat)
    ensures p >= 1
  {
    if n == 0 then 1 else 2 * Pow2(n - 1)
  }

  /** `Math.pow(2, attempt) * 1000` */
  function RetryDelay(attempt: nat): nat {
    Pow2(attempt) * 1000
  }

  /** The waits after the first n failed attempts. */
  function Delays(n: nat): (d: seq<nat>)
    ensures |d| == n
    ensures forall k :: 0 <= k < n ==> d[k] == RetryDelay(k + 1)
  {
    seq(n, k requires 0 <= k < n => RetryDelay(k + 1))
  }

  /**
   * `startWorkers`, with `up[k]` standing for whether attempt k + 1 reached the Redis server
   * and started every worker.  Returns whether the workers started, how many admin alerts
   * were sent, the waits between attempts, and whether the process exited.
   */
  method StartWorkers(up: seq<bool>) returns (started: bool, alerts: nat, delays: seq<nat>, exited: bool)
    requires |up| == MaxRetries
    ensures started <==> !exited
    ensures started ==> alerts < MaxRetries && up[alerts] && forall k :: 0 <= k < alerts ==> !up[k]
    ensures !started ==> alerts == MaxRetries && forall k :: 0 <= k < MaxRetries ==> !up[k]
    ensures delays == Delays(if started then alerts else MaxRetries - 1)
  {
    var attempt := 1;
    started, exited, alerts, delays := false, false, 0, [];
    while !started && !exited
      invariant 1 <= attempt <= MaxRetries
      invariant forall k :: 0 <= k < attempt - 1 ==> !up[k]
      invariant !(started && exited)
      invariant started ==> up[attempt - 1] && alerts == attempt - 1
      invariant exited ==> attempt == MaxRetries && !up[attempt - 1] && alerts == MaxRetries
      invariant !started && !exited ==> alerts == attempt - 1
      invariant delays == Delays(attempt - 1)
      decreases MaxRetries - attempt, if started || exited then 0 else 1
    {
      if up[attempt - 1] {
        started := true;
      } else {
        alerts := alerts + 1;
        if attempt == MaxRetries {
          exited := true;
        } else {
          delays := delays + [RetryDelay(attempt)];
          attempt := attempt + 1;
        }
      }
    }
  }

  /** The schedule: 2, 4, 8 and 16 seconds, 30 seconds of waiting in all before the process exits. */
  lemma RetrySchedule()
    ensures Delays(MaxRetries - 1) == [2000, 4000, 8000, 16000]
    ensures Total(Delays(MaxRetries - 1)) == 30000
  {
    assert Pow2(1) == 2 && Pow2(2) == 4 && Pow2(3) == 8 && Pow2(4) == 16;
    assert Delays(1) == [2000];
    assert Delays(2) == [2000, 4000];
    assert Delays(3) == [2000, 4000, 8000];
    assert Delays(4) == [2000, 4000, 8000, 16000];
    assert [2000, 4000, 8000, 16000][..3] == [2000, 4000, 8000];
    assert [2000, 4000, 8000][..2] == [2000, 4000];
    assert [2000, 4000][..1] == [2000];
    assert [2000][..0] == [];
  }

  function Total(ds: seq<nat>): nat {
    if ds == [] then 0 else Total(ds[..|ds| - 1]) + ds[|ds| - 1]
  }
}
