/**
 * The document collections the pipeline reads and writes, one class per Mongoose model, and
 * the queries it runs against them.  A collection is a sequence in natural (insertion) order,
 * so `findOne`/`findById` return the first match.  Each class method is one store operation
 * of the source (`updateOne`, `save`, `create`, `updateMany`, a Redis `publish`) and states
 * the whole new content of its collection.
 */
module Stores {
  import opened Common
  import opened Models

  /** Index of the first element satisfying p: what `findOne` returns. */
  function FirstMatch<T>(s: seq<T>, p: T -> bool): (r: Option<nat>)
    ensures r.Some? ==> r.value < |s| && p(s[r.value])
    ensures r.Some? ==> forall k :: 0 <= k < r.value ==> !p(s[k])
    ensures r.None? ==> forall k :: 0 <= k < |s| ==> !p(s[k])
  {
    if s == [] then None
    else if p(s[0]) then Some(0)
    else
      match FirstMatch(s[1..], p)
      case None => None
      case Some(i) => Some(i + 1)
  }

  /** Updating an element that keeps its answer to p, with no earlier match, leaves the first match where it was. */
  lemma {:induction false} FirstMatchAfterUpdate<T>(s: seq<T>, p: T -> bool, k: nat, x: T)
    requires FirstMatch(s, p) == Some(k)
    requires p(x)
    ensures FirstMatch(s[k := x], p) == Some(k)
  {
    if k > 0 {
      assert !p(s[0]);
      assert s[k := x][1..] == s[1..][k - 1 := x];
      FirstMatchAfterUpdate(s[1..], p, k - 1, x);
    }
  }

  /** Two collections that answer p alike, position by position, have the same first match. */
  lemma {:induction false} FirstMatchSameAnswers<T>(s: seq<T>, t: seq<T>, p: T -> bool)
    requires |s| == |t|
    requires forall i :: 0 <= i < |s| ==> p(s[i]) == p(t[i])
    ensures FirstMatch(s, p) == FirstMatch(t, p)
  {
    if s != [] {
      FirstMatchSameAnswers(s[1..], t[1..], p);
    }
  }

  function UserByMatric(users: seq<User>, matricNumber: string): Option<nat> {
    FirstMatch(users, (u: User) => u.matricNumber == Some(matricNumber))
  }

  function UserByDevice(users: seq<User>, deviceId: string): Option<nat> {
    FirstMatch(users, (u: User) => u.deviceId == Some(deviceId))
  }

  function UserById(users: seq<User>, id: string): Option<nat> {
    FirstMatch(users, (u: User) => u.id == id)
  }

  function SessionById(sessions: seq<Session>, id: string): Option<nat> {
    FirstMatch(sessions, (s: Session) => s.id == id)
  }

  function CourseById(courses: seq<Course>, id: string): Option<nat> {
    FirstMatch(courses, (c: Course) => c.id == id)
  }

  function LocationById(locations: seq<Location>, id: string): Option<nat> {
    FirstMatch(locations, (l: Location) => l.id == id)
  }

  function RequestById(requests: seq<OverrideRequest>, id: string): Option<nat> {
    FirstMatch(requests, (o: OverrideRequest) => o.id == id)
  }

  /** Saving a session under its own id keeps it findable at the same index. */
  lemma SessionByIdAfterSave(sessions: seq<Session>, id: string, k: nat, s: Session)
    requires SessionById(sessions, id) == Some(k)
    requires s.id == id
    ensures SessionById(sessions[k := s], id) == Some(k)
  {
    FirstMatchAfterUpdate(sessions, (x: Session) => x.id == id, k, s);
  }

  /** `User.updateOne({matricNumber}, {deviceId})`: the first user with that matric number now holds the device. */
  function WithDevice(users: seq<User>, matricNumber: string, deviceId: string): (r: seq<User>)
    ensures |r| == |users|
    ensures UserByMatric(users, matricNumber).None? ==> r == users
    ensures UserByMatric(users, matricNumber).Some? ==>
      var k := UserByMatric(users, matricNumber).value;
      r == users[k := users[k].(deviceId := Some(deviceId))]
  {
    match UserByMatric(users, matricNumber)
    case None => users
    case Some(k) => users[k := users[k].(deviceId := Some(deviceId))]
  }

  /** `$addToSet`: append x unless it is already there. */
  function AddToSet(xs: seq<string>, x: string): (r: seq<string>)
    ensures x in r
    ensures forall y :: y in r <==> y in xs || y == x
    ensures xs <= r && |r| <= |xs| + 1
  {
    if x in xs then xs else xs + [x]
  }

  predicate NoDuplicates(xs: seq<string>) {
    forall i, j :: 0 <= i < j < |xs| ==> xs[i] != xs[j]
  }

  /** Adding to a set keeps a duplicate-free list duplicate-free. */
  lemma AddToSetNoDuplicates(xs: seq<string>, x: string)
    requires NoDuplicates(xs)
    ensures NoDuplicates(AddToSet(xs, x))
  {
  }

  /** `Course.updateMany({_id: {$in: courseIds}}, {$addToSet: {students: studentId}})` */
  function EnrollInListed(courses: seq<Course>, courseIds: seq<string>, studentId: string): (r: seq<Course>)
    ensures |r| == |courses|
    ensures forall k :: 0 <= k < |r| ==> r[k].id == courses[k].id && r[k].name == courses[k].name
    ensures forall k :: 0 <= k < |r| && courses[k].id in courseIds ==> r[k].students == AddToSet(courses[k].students, studentId)
    ensures forall k :: 0 <= k < |r| && courses[k].id !in courseIds ==> r[k] == courses[k]
  {
    seq(|courses|, k requires 0 <= k < |courses| =>
      if courses[k].id in courseIds
      then courses[k].(students := AddToSet(courses[k].students, studentId))
      else courses[k])
  }

  /** Error text of a document the schema rejects on save or create. */
  const ValidationFailedMessage := "validation failed"
  /** Error text of an insert that violates a unique index. */
  const DuplicateKeyMessage := "E11000 duplicate key error"

  class UserStore {
    var users: seq<User>

    constructor (initial: seq<User>)
      ensures users == initial
    {
      users := initial;
    }

    /** `User.updateOne({matricNumber}, {deviceId})` */
    method SetDeviceByMatric(matricNumber: string, deviceId: string)
      modifies this
      ensures users == WithDevice(old(users), matricNumber, deviceId)
    {
      users := WithDevice(users, matricNumber, deviceId);
    }

    /** `student.selectedCourses = courseIds; await student.save()` for the user at index k. */
    method SetSelectedCourses(k: nat, courseIds: seq<string>)
      requires k < |users|
      modifies this
      ensures users == old(users)[k := old(users)[k].(selectedCourses := courseIds)]
    {
      users := users[k := users[k].(selectedCourses := courseIds)];
    }

    /**
     * `User.findByIdAndUpdate(userId, {matricNumber, name, programme, level, isActivated: true})`.
     * The unique index refuses the update when another user already holds the stored matric
     * number; an unknown id updates nothing and is not an error.
     */
    method ApplyExtracted(userId: string, data: ExtractedData) returns (ok: bool)
      modifies this
      ensures ok == ActivationAllowed(old(users), userId, data)
      ensures users == if ok then Activated(old(users), userId, data) else old(users)
    {
      var stored := NormalizeMatric(data.matricNumber);
      ok := forall j :: 0 <= j < |users| && users[j].id != userId ==> users[j].matricNumber != Some(stored);
      match UserById(users, userId)
      case None =>
        ok := true;
      case Some(k) =>
        if ok {
          users := users[k := users[k].(matricNumber := Some(stored), name := data.name,
                                        programme := Some(data.programme), level := Some(data.level),
                                        isActivated := true)];
        }
    }
  }

  /** The update may go ahead: no such user (nothing to do), or no other user holds the stored matric number. */
  predicate ActivationAllowed(users: seq<User>, userId: string, data: ExtractedData) {
    UserById(users, userId).None?
    || forall j :: 0 <= j < |users| && users[j].id != userId ==> users[j].matricNumber != Some(NormalizeMatric(data.matricNumber))
  }

  /** The user store after the activation update: only the addressed user changes, and only in the five written fields. */
  function Activated(users: seq<User>, userId: string, data: ExtractedData): (r: seq<User>)
    ensures |r| == |users|
    ensures UserById(users, userId).None? ==> r == users
    ensures UserById(users, userId).Some? ==>
      var k := UserById(users, userId).value;
      && (forall j :: 0 <= j < |users| && j != k ==> r[j] == users[j])
      && r[k].isActivated && r[k].name == data.name
      && r[k].matricNumber == Some(NormalizeMatric(data.matricNumber))
      && r[k].programme == Some(data.programme) && r[k].level == Some(data.level)
      && r[k].(matricNumber := users[k].matricNumber, name := users[k].name, programme := users[k].programme,
               level := users[k].level, isActivated := users[k].isActivated) == users[k]
  {
    match UserById(users, userId)
    case None => users
    case Some(k) =>
      users[k := users[k].(matricNumber := Some(NormalizeMatric(data.matricNumber)), name := data.name,
                           programme := Some(data.programme), level := Some(data.level), isActivated := true)]
  }

  class SessionStore {
    var sessions: seq<Session>

    constructor (initial: seq<Session>)
      ensures sessions == initial
    {
      sessions := initial;
    }

    /** `new Session({...}).save()`: the schema validates the document before it is inserted. */
    method Insert(s: Session) returns (ok: bool)
      modifies this
      ensures ok == ValidSessionDoc(s)
      ensures sessions == if ok then old(sessions) + [s] else old(sessions)
    {
      ok := ValidSessionDoc(s);
      if ok {
        sessions := sessions + [s];
      }
    }

    /** `session.save()` of the session loaded from index k: validated, then written back. */
    method Save(k: nat, s: Session) returns (ok: bool)
      requires k < |sessions|
      modifies this
      ensures ok == ValidSessionDoc(s)
      ensures sessions == if ok then old(sessions)[k := s] else old(sessions)
    {
      ok := ValidSessionDoc(s);
      if ok {
        sessions := sessions[k := s];
      }
    }
  }

  class OverrideStore {
    var requests: seq<OverrideRequest>

    constructor (initial: seq<OverrideRequest>)
      ensures requests == initial
    {
      requests := initial;
    }

    /** `OverrideRequest.create({...})`: validated against the schema, then inserted. */
    method Create(o: OverrideRequest) returns (ok: bool)
      modifies this
      ensures ok == ValidOverrideDoc(o)
      ensures requests == if ok then old(requests) + [o] else old(requests)
    {
      ok := ValidOverrideDoc(o);
      if ok {
        requests := requests + [o];
      }
    }

    /** `overrideRequest.save()` of the request loaded from index k (only status and decision fields change). */
    method Save(k: nat, o: OverrideRequest)
      requires k < |requests|
      modifies this
      ensures requests == old(requests)[k := o]
    {
      requests := requests[k := o];
    }
  }

  /** `JobResult.create(doc)` succeeds when the schema accepts the document and its jobId is new. */
  predicate CreateAccepts(results: seq<JobResult>, doc: JobResult) {
    ValidJobResultDoc(doc) && !HasJobResult(results, doc.jobId)
  }

  /** The error a refused `JobResult.create` throws. */
  function CreateError(results: seq<JobResult>, doc: JobResult): ApiError {
    if !ValidJobResultDoc(doc) then Uncaught(ValidationFailedMessage) else Uncaught(DuplicateKeyMessage)
  }

  /** The unique index keeps one result per job: an accepted create preserves it. */
  lemma CreatePreservesUniqueJobIds(results: seq<JobResult>, doc: JobResult)
    requires UniqueJobIds(results)
    requires CreateAccepts(results, doc)
    ensures UniqueJobIds(results + [doc])
  {
    forall i, j | 0 <= i < j < |results| + 1
      ensures (results + [doc])[i].jobId != (results + [doc])[j].jobId
    {
      if j == |results| {
        assert (results + [doc])[i] == results[i];
      }
    }
  }

  /** Once a job has a result, every further create for that job is refused. */
  lemma SecondCreateRefused(results: seq<JobResult>, doc: JobResult, again: JobResult)
    requires CreateAccepts(results, doc)
    requires again.jobId == doc.jobId
    ensures !CreateAccepts(results + [doc], again)
  {
    assert (results + [doc])[|results|] == doc;
  }

  class JobResultStore {
    var results: seq<JobResult>

    constructor (initial: seq<JobResult>)
      ensures results == initial
    {
      results := initial;
    }

    method Create(doc: JobResult) returns (ok: bool)
      modifies this
      ensures ok == CreateAccepts(old(results), doc)
      ensures results == if ok then old(results) + [doc] else old(results)
    {
      ok := ValidJobResultDoc(doc) && forall k :: 0 <= k < |results| ==> results[k].jobId != doc.jobId;
      if ok {
        results := results + [doc];
      }
    }
  }

  class CourseStore {
    var courses: seq<Course>

    constructor (initial: seq<Course>)
      ensures courses == initial
    {
      courses := initial;
    }

    method AddStudentToCourses(courseIds: seq<string>, studentId: string)
      modifies this
      ensures courses == EnrollInListed(old(courses), courseIds, studentId)
    {
      courses := EnrollInListed(courses, courseIds, studentId);
    }
  }

  /** What a lecturer's live view receives for one attendance. */
  datatype LiveEvent = LiveEvent(matricNumber: string, name: string, level: Option<string>, timestamp: int)

  datatype Publication = Publication(channel: string, event: LiveEvent)

  /** The Redis pub/sub connection, seen as the list of messages published so far. */
  class EventChannel {
    var published: seq<Publication>

    constructor ()
      ensures published == []
    {
      published := [];
    }

    method Publish(channel: string, event: LiveEvent)
      modifies this
      ensures published == old(published) + [Publication(channel, event)]
    {
      published := published + [Publication(channel, event)];
    }
  }
}
