/**
 * src/utils/attendanceUtils.js: the geofence test used by the attendance handlers, the
 * auto-binding device validator and the device-holder lookup.
 */
module AttendanceUtils {
  import opened Common
  import opened Models
  import opened Stores

  // ---------------------------------------------------------------- checkGeofence

  /** The loop pairs corner i with j = i - 1, and the first corner with the last. */
  function Prev(i: nat, n: nat): nat
    requires i < n
  {
    if i == 0 then n - 1 else i - 1
  }

  /**
   * The crossing test of one edge: exactly one end lies strictly north of the point, and the
   * point lies west of where the edge meets the point's latitude.  The division is reached
   * only when the first conjunct holds, so its divisor is never zero.
   */
  predicate EdgeCrosses(latitude: real, longitude: real, ci: Corner, cj: Corner) {
    && (ci.latitude > latitude) != (cj.latitude > latitude)
    && longitude < Intercept(latitude, ci, cj)
  }

  /** The longitude at which the edge meets the given latitude. */
  function Intercept(latitude: real, ci: Corner, cj: Corner): real
    requires ci.latitude != cj.latitude
  {
    (cj.longitude - ci.longitude) * (latitude - ci.latitude) / (cj.latitude - ci.latitude) + ci.longitude
  }

  /** An edge the test examines has two different latitudes. */
  lemma CrossingEdgeHasDistinctLatitudes(latitude: real, longitude: real, ci: Corner, cj: Corner)
    requires EdgeCrosses(latitude, longitude, ci, cj)
    ensures ci.latitude != cj.latitude
  {
  }

  /** How many of the first `upTo` edges the ray crosses. */
  function Crossings(latitude: real, longitude: real, corners: seq<Corner>, upTo: nat): (c: nat)
    requires upTo <= |corners|
    ensures c <= upTo
  {
    if upTo == 0 then 0
    else
      var i := upTo - 1;
      Crossings(latitude, longitude, corners, i)
      + (if EdgeCrosses(latitude, longitude, corners[i], corners[Prev(i, |corners|)]) then 1 else 0)
  }

  /** Even-odd rule: inside iff the ray crosses an odd number of edges. */
  predicate Inside(latitude: real, longitude: real, corners: seq<Corner>) {
    Crossings(latitude, longitude, corners, |corners|) % 2 == 1
  }

  /** `checkGeofence(latitude, longitude, corners)`: the loop toggling `inside`, with no input validation. */
  method CheckGeofence(latitude: real, longitude: real, corners: seq<Corner>) returns (inside: bool)
    ensures inside == Inside(latitude, longitude, corners)
  {
    inside := false;
    var i: int := 0;
    var j: int := |corners| - 1;
    while i < |corners|
      invariant 0 <= i <= |corners|
      invariant i < |corners| ==> j == Prev(i, |corners|)
      invariant inside <==> Crossings(latitude, longitude, corners, i) % 2 == 1
    {
      if EdgeCrosses(latitude, longitude, corners[i], corners[j]) {
        inside := !inside;
      }
      j := i;
      i := i + 1;
    }
  }

  /** No edge crosses when every corner is on the same side (north, or not north) of the point. */
  lemma {:induction false} NoCrossingsOnOneSide(latitude: real, longitude: real, corners: seq<Corner>, upTo: nat)
    requires upTo <= |corners|
    requires (forall k :: 0 <= k < |corners| ==> corners[k].latitude <= latitude)
          || (forall k :: 0 <= k < |corners| ==> corners[k].latitude > latitude)
    ensures Crossings(latitude, longitude, corners, upTo) == 0
  {
    if upTo > 0 {
      NoCrossingsOnOneSide(latitude, longitude, corners, upTo - 1);
      var i := upTo - 1;
      assert !EdgeCrosses(latitude, longitude, corners[i], corners[Prev(i, |corners|)]);
    }
  }

  /** A point at or north of every corner, or south of every corner, is outside. */
  lemma OutsideLatitudeRangeIsOutside(latitude: real, longitude: real, corners: seq<Corner>)
    requires (forall k :: 0 <= k < |corners| ==> corners[k].latitude <= latitude)
          || (forall k :: 0 <= k < |corners| ==> corners[k].latitude > latitude)
    ensures !Inside(latitude, longitude, corners)
  {
    NoCrossingsOnOneSide(latitude, longitude, corners, |corners|);
  }

  /** The rectangle between two parallels and two meridians, corners listed south-west, south-east, north-east, north-west. */
  function Rectangle(south: real, west: real, north: real, east: real): seq<Corner> {
    [Corner(south, west), Corner(south, east), Corner(north, east), Corner(north, west)]
  }

  function Indicator(b: bool): nat {
    if b then 1 else 0
  }

  /** A four-corner polygon has the edges (a, d), (b, a), (c, b) and (d, c). */
  lemma CrossingsOfFour(latitude: real, longitude: real, a: Corner, b: Corner, c: Corner, d: Corner)
    ensures Crossings(latitude, longitude, [a, b, c, d], 4)
         == Indicator(EdgeCrosses(latitude, longitude, a, d)) + Indicator(EdgeCrosses(latitude, longitude, b, a))
          + Indicator(EdgeCrosses(latitude, longitude, c, b)) + Indicator(EdgeCrosses(latitude, longitude, d, c))
  {
    var p := [a, b, c, d];
    assert Crossings(latitude, longitude, p, 1) == Indicator(EdgeCrosses(latitude, longitude, a, d));
    assert Crossings(latitude, longitude, p, 2) == Crossings(latitude, longitude, p, 1) + Indicator(EdgeCrosses(latitude, longitude, b, a));
    assert Crossings(latitude, longitude, p, 3) == Crossings(latitude, longitude, p, 2) + Indicator(EdgeCrosses(latitude, longitude, c, b));
  }

  /** An edge along a meridian meets every latitude at its own longitude. */
  lemma MeridianIntercept(latitude: real, ci: Corner, cj: Corner)
    requires ci.latitude != cj.latitude && ci.longitude == cj.longitude
    ensures Intercept(latitude, ci, cj) == ci.longitude
  {
    var t := latitude - ci.latitude;
    var q := cj.latitude - ci.latitude;
    assert cj.longitude - ci.longitude == 0.0;
    assert 0.0 * t == 0.0;
    assert 0.0 / q == 0.0;
  }

  /**
   * The centre of a rectangle is inside it: of its four edges the ray from the centre
   * crosses only the eastern one.  A point at or north of its northern side is outside.
   */
  lemma RectangleExamples(south: real, west: real, north: real, east: real)
    requires south < north && west < east
    ensures Inside((south + north) / 2.0, (west + east) / 2.0, Rectangle(south, west, north, east))
    ensures !Inside(north, (west + east) / 2.0, Rectangle(south, west, north, east))
  {
    var lat, lng := (south + north) / 2.0, (west + east) / 2.0;
    var a, b, c, d := Corner(south, west), Corner(south, east), Corner(north, east), Corner(north, west);
    CrossingsOfFour(lat, lng, a, b, c, d);
    MeridianIntercept(lat, a, d);
    MeridianIntercept(lat, c, b);
    assert !EdgeCrosses(lat, lng, a, d);
    assert EdgeCrosses(lat, lng, c, b);
    OutsideLatitudeRangeIsOutside(north, lng, Rectangle(south, west, north, east));
  }

  // ---------------------------------------------------------------- handleDeviceValidation

  const DeviceTakenMessage := "This device is already tied to another student account"

  /** What `handleDeviceValidation` returns: `{success: true}`, or a failure naming the holder. */
  datatype DeviceCheck = DeviceAccepted | DeviceRejected(message: string, conflict: ConflictInfo)

  /** Some user other than the caller holds the device. */
  predicate HeldByOther(users: seq<User>, matricNumber: string, deviceId: string) {
    exists k :: 0 <= k < |users| && users[k].deviceId == Some(deviceId) && users[k].matricNumber != Some(matricNumber)
  }

  /**
   * The verdict of `handleDeviceValidation`: accepted when nobody holds the device or its
   * first holder has the caller's matric number; otherwise rejected with that holder's
   * matric number and name.
   */
  function DeviceDecision(users: seq<User>, matricNumber: string, deviceId: string): (r: DeviceCheck)
    ensures r.DeviceAccepted? <==>
      (UserByDevice(users, deviceId).None? || users[UserByDevice(users, deviceId).value].matricNumber == Some(matricNumber))
    ensures r.DeviceRejected? ==>
      && UserByDevice(users, deviceId).Some?
      && var holder := users[UserByDevice(users, deviceId).value];
      && holder.matricNumber != Some(matricNumber)
      && r == DeviceRejected(DeviceTakenMessage, ConflictInfo(holder.matricNumber, holder.name))
  {
    match UserByDevice(users, deviceId)
    case None => DeviceAccepted
    case Some(k) =>
      if users[k].matricNumber == Some(matricNumber) then DeviceAccepted
      else DeviceRejected(DeviceTakenMessage, ConflictInfo(users[k].matricNumber, users[k].name))
  }

  /** The user store after `handleDeviceValidation`: a free device is bound to the caller; nothing else is written. */
  function AfterDeviceValidation(users: seq<User>, matricNumber: string, deviceId: string): (r: seq<User>)
    ensures UserByDevice(users, deviceId).Some? ==> r == users
    ensures UserByDevice(users, deviceId).None? ==> r == WithDevice(users, matricNumber, deviceId)
  {
    if UserByDevice(users, deviceId).None? then WithDevice(users, matricNumber, deviceId) else users
  }

  /** Device validation touches no field but `deviceId`: ids, names and levels stay where they were. */
  lemma DeviceValidationKeepsProfiles(users: seq<User>, matricNumber: string, deviceId: string)
    ensures var r := AfterDeviceValidation(users, matricNumber, deviceId);
      && |r| == |users|
      && (forall k :: 0 <= k < |r| ==> r[k] == users[k].(deviceId := r[k].deviceId))
      && (forall id :: UserById(r, id) == UserById(users, id))
  {
    var r := AfterDeviceValidation(users, matricNumber, deviceId);
    forall id
      ensures UserById(r, id) == UserById(users, id)
    {
      FirstMatchSameAnswers(r, users, (u: User) => u.id == id);
    }
  }

  /**
   * Validation settles: once a device is accepted for an existing student, validating the same
   * pair again accepts it and writes nothing more.
   */
  lemma RevalidationAccepts(users: seq<User>, matricNumber: string, deviceId: string)
    requires DeviceDecision(users, matricNumber, deviceId).DeviceAccepted?
    requires UserByMatric(users, matricNumber).Some?
    ensures var r := AfterDeviceValidation(users, matricNumber, deviceId);
      && DeviceDecision(r, matricNumber, deviceId).DeviceAccepted?
      && AfterDeviceValidation(r, matricNumber, deviceId) == r
  {
    if UserByDevice(users, deviceId).None? {
      var c := UserByMatric(users, matricNumber).value;
      var r := AfterDeviceValidation(users, matricNumber, deviceId);
      assert r[c].deviceId == Some(deviceId);
      assert forall k :: 0 <= k < c ==> r[k] == users[k];
      assert UserByDevice(r, deviceId) == Some(c);
    }
  }

  /** When devices are exclusive, the validator rejects exactly the devices some other user holds. */
  lemma DecisionMatchesHolder(users: seq<User>, matricNumber: string, deviceId: string)
    requires DeviceExclusive(users)
    ensures DeviceDecision(users, matricNumber, deviceId).DeviceRejected? <==> HeldByOther(users, matricNumber, deviceId)
  {
    match UserByDevice(users, deviceId)
    case None =>
    case Some(h) =>
      if HeldByOther(users, matricNumber, deviceId) {
        var k :| 0 <= k < |users| && users[k].deviceId == Some(deviceId) && users[k].matricNumber != Some(matricNumber);
        SingleHolder(users, deviceId, k, h);
      }
  }

  /** Under exclusivity two holders of one device are the same user. */
  lemma SingleHolder(users: seq<User>, deviceId: string, i: nat, j: nat)
    requires DeviceExclusive(users)
    requires i < |users| && j < |users|
    requires users[i].deviceId == Some(deviceId) && users[j].deviceId == Some(deviceId)
    ensures i == j
  {
  }

  /** Auto-binding keeps every device held by at most one user. */
  lemma DeviceValidationKeepsExclusive(users: seq<User>, matricNumber: string, deviceId: string)
    requires DeviceExclusive(users)
    ensures DeviceExclusive(AfterDeviceValidation(users, matricNumber, deviceId))
  {
    var r := AfterDeviceValidation(users, matricNumber, deviceId);
    if UserByDevice(users, deviceId).None? && UserByMatric(users, matricNumber).Some? {
      var c := UserByMatric(users, matricNumber).value;
      forall i, j | 0 <= i < j < |r| && r[i].deviceId.Some?
        ensures r[i].deviceId != r[j].deviceId
      {
        if i == c {
          assert users[j].deviceId != Some(deviceId);
        } else if j == c {
          assert users[i].deviceId != Some(deviceId);
        } else {
          assert r[i] == users[i] && r[j] == users[j];
        }
      }
    }
  }

  /**
   * The auto-bind replaces the caller's device: a caller holding d0 who presents a free
   * device d ends up holding d, and no user holds d0 any more.
   */
  lemma RebindReleasesPreviousDevice(users: seq<User>, matricNumber: string, deviceId: string, previous: string)
    requires DeviceExclusive(users)
    requires UserByDevice(users, deviceId).None?
    requires UserByMatric(users, matricNumber).Some?
    requires users[UserByMatric(users, matricNumber).value].deviceId == Some(previous)
    ensures var r := AfterDeviceValidation(users, matricNumber, deviceId);
      && r[UserByMatric(users, matricNumber).value].deviceId == Some(deviceId)
      && forall k :: 0 <= k < |r| ==> r[k].deviceId != Some(previous)
  {
    var c := UserByMatric(users, matricNumber).value;
    var r := AfterDeviceValidation(users, matricNumber, deviceId);
    forall k | 0 <= k < |r|
      ensures r[k].deviceId != Some(previous)
    {
      if k != c {
        if k < c {
          assert users[k].deviceId != users[c].deviceId;
        } else {
          assert users[c].deviceId != users[k].deviceId;
        }
      } else {
        assert deviceId != previous by {
          assert users[c].deviceId == Some(previous);
        }
      }
    }
  }

  /** `handleDeviceValidation(matricNumber, deviceId)` */
  method HandleDeviceValidation(users: UserStore, matricNumber: string, deviceId: string) returns (r: DeviceCheck)
    modifies users
    ensures r == DeviceDecision(old(users.users), matricNumber, deviceId)
    ensures users.users == AfterDeviceValidation(old(users.users), matricNumber, deviceId)
  {
    var owner := UserByDevice(users.users, deviceId);
    if owner.None? {
      users.SetDeviceByMatric(matricNumber, deviceId);
      return DeviceAccepted;
    }
    var holder := users.users[owner.value];
    if holder.matricNumber == Some(matricNumber) {
      return DeviceAccepted;
    }
    return DeviceRejected(DeviceTakenMessage, ConflictInfo(holder.matricNumber, holder.name));
  }

  // ---------------------------------------------------------------- fetchOriginalOwner

  const FetchOwnerErrorMessage := "Error Fetching Original device owner"

  datatype OwnerInfo = OwnerInfo(matricNumber: Option<string>, name: string, selfie: Option<string>)

  /** `{success, message?, conflictInfo?}` as `fetchOriginalOwner` returns it. */
  datatype OwnerLookup = OwnerLookup(success: bool, message: Option<string>, conflictInfo: Option<OwnerInfo>)

  /**
   * `fetchOriginalOwner(deviceId)`; `lookupFails` says whether the store query threw, which
   * the function turns into a failure value instead of an exception.
   */
  function FetchOriginalOwner(users: seq<User>, deviceId: string, lookupFails: bool): (r: OwnerLookup)
    ensures lookupFails ==> r == OwnerLookup(false, Some(FetchOwnerErrorMessage), None)
    ensures !lookupFails ==> r.success && r.message.None?
    ensures !lookupFails ==>
      (r.conflictInfo.Some? <==> exists k :: 0 <= k < |users| && users[k].deviceId == Some(deviceId))
    ensures !lookupFails && r.conflictInfo.Some? ==>
      && UserByDevice(users, deviceId).Some?
      && var holder := users[UserByDevice(users, deviceId).value];
      && r.conflictInfo.value == OwnerInfo(holder.matricNumber, holder.name, holder.selfie)
  {
    if lookupFails then OwnerLookup(false, Some(FetchOwnerErrorMessage), None)
    else
      match UserByDevice(users, deviceId)
      case None => OwnerLookup(true, None, None)
      case Some(k) => OwnerLookup(true, None, Some(OwnerInfo(users[k].matricNumber, users[k].name, users[k].selfie)))
  }
}
