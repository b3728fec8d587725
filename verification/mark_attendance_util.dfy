/**
 * src/utils/student/mark_attendance_util.js: the validating geofence variant, the read-only
 * device-validation ladder and the device-holder lookup that reports the holder's id.  These
 * query the Student collection, whose records carry the same matric number, name, device and
 * selfie fields as the user records; the model reads them from the same sequence.
 */
module MarkAttendanceUtil {
  import opened Common
  import opened JsValues
  import opened Models
  import opened Stores
  import opened AttendanceUtils

  // ---------------------------------------------------------------- checkGeofenceUtil

  const InvalidCoordinatesMessage := "Invalid latitude or longitude"
  const CornerCountMessage := "Classroom must have exactly 4 corners"
  const InvalidCornerPrefix := "Invalid corner data at index "

  /** Both coordinates are numbers, not NaN, latitude in [-90, 90] and longitude in [-180, 180]. */
  predicate ValidCoordinates(latitude: JsValue, longitude: JsValue) {
    && latitude.Num? && longitude.Num?
    && -90.0 <= latitude.x <= 90.0
    && -180.0 <= longitude.x <= 180.0
  }

  /** A truthy corner whose latitude and longitude are numbers other than NaN. */
  predicate ValidCorner(corner: JsValue) {
    Truthy(corner) && Property(corner, "latitude").Num? && Property(corner, "longitude").Num?
  }

  /** The index the corner loop reports: the first corner that fails the check. */
  function FirstInvalidCorner(corners: seq<JsValue>): Option<nat> {
    FirstMatch(corners, (c: JsValue) => !ValidCorner(c))
  }

  /** The numeric coordinates of a corner that passed the check. */
  function CornerOf(corner: JsValue): Corner
    requires ValidCorner(corner)
  {
    Corner(Property(corner, "latitude").x, Property(corner, "longitude").x)
  }

  function ToCorners(corners: seq<JsValue>): (r: seq<Corner>)
    requires forall k :: 0 <= k < |corners| ==> ValidCorner(corners[k])
    ensures |r| == |corners|
    ensures forall k :: 0 <= k < |r| ==> r[k] == CornerOf(corners[k])
  {
    seq(|corners|, k requires 0 <= k < |corners| => CornerOf(corners[k]))
  }

  /**
   * The variant crossing test of one edge, as written: an edge whose ends share a latitude is
   * skipped, straddling is tested on longitude, and the intercept divides by the latitude
   * difference, which the skip keeps non-zero.
   */
  predicate UtilEdgeCrosses(latitude: real, longitude: real, ci: Corner, cj: Corner) {
    && ci.latitude != cj.latitude
    && (ci.longitude > longitude) != (cj.longitude > longitude)
    && latitude < UtilIntercept(longitude, ci, cj)
  }

  /** Line 60's right-hand side. */
  function UtilIntercept(longitude: real, ci: Corner, cj: Corner): real
    requires ci.latitude != cj.latitude
  {
    (cj.latitude - ci.latitude) * (longitude - ci.longitude) / (cj.latitude - ci.latitude) + ci.latitude
  }

  function UtilCrossings(latitude: real, longitude: real, corners: seq<Corner>, upTo: nat): (c: nat)
    requires upTo <= |corners|
    ensures c <= upTo
  {
    if upTo == 0 then 0
    else
      var i := upTo - 1;
      UtilCrossings(latitude, longitude, corners, i)
      + (if UtilEdgeCrosses(latitude, longitude, corners[i], corners[Prev(i, |corners|)]) then 1 else 0)
  }

  predicate UtilInside(latitude: real, longitude: real, corners: seq<Corner>) {
    UtilCrossings(latitude, longitude, corners, |corners|) % 2 == 1
  }

  /** Over exact arithmetic the variant's intercept is `xi + (longitude - yi)`. */
  lemma UtilInterceptSimplifies(longitude: real, ci: Corner, cj: Corner)
    requires ci.latitude != cj.latitude
    ensures UtilIntercept(longitude, ci, cj) == ci.latitude + (longitude - ci.longitude)
  {
  }

  /** `checkGeofenceUtil(latitude, longitude, corners)`: validation in order, then the variant ray cast. */
  method CheckGeofenceUtil(latitude: JsValue, longitude: JsValue, corners: JsValue) returns (r: Result<bool>)
    ensures !ValidCoordinates(latitude, longitude) ==> r == Err(BadRequest(InvalidCoordinatesMessage))
    ensures ValidCoordinates(latitude, longitude) && !(corners.Arr? && |corners.items| == 4)
      ==> r == Err(BadRequest(CornerCountMessage))
    ensures ValidCoordinates(latitude, longitude) && corners.Arr? && |corners.items| == 4
      && FirstInvalidCorner(corners.items).Some?
      ==> r == Err(BadRequest(InvalidCornerPrefix + NatToString(FirstInvalidCorner(corners.items).value)))
    ensures ValidCoordinates(latitude, longitude) && corners.Arr? && |corners.items| == 4
      && FirstInvalidCorner(corners.items).None?
      ==> r == Ok(UtilInside(latitude.x, longitude.x, ToCorners(corners.items)))
  {
    if !ValidCoordinates(latitude, longitude) {
      return Err(BadRequest(InvalidCoordinatesMessage));
    }
    if !corners.Arr? || |corners.items| != 4 {
      return Err(BadRequest(CornerCountMessage));
    }
    var items := corners.items;
    var index := 0;
    while index < |items|
      invariant 0 <= index <= |items|
      invariant forall k :: 0 <= k < index ==> ValidCorner(items[k])
    {
      if !ValidCorner(items[index]) {
        assert FirstInvalidCorner(items) == Some(index);
        return Err(BadRequest(InvalidCornerPrefix + NatToString(index)));
      }
      index := index + 1;
    }
    var polygon := ToCorners(items);
    var lat, lng := latitude.x, longitude.x;
    var inside := false;
    var i: int := 0;
    var j: int := |polygon| - 1;
    while i < |polygon|
      invariant 0 <= i <= |polygon|
      invariant i < |polygon| ==> j == Prev(i, |polygon|)
      invariant inside <==> UtilCrossings(lat, lng, polygon, i) % 2 == 1
    {
      var xi, yi := polygon[i].latitude, polygon[i].longitude;
      var xj, yj := polygon[j].latitude, polygon[j].longitude;
      if xi == xj {
        j := i;
        i := i + 1;
        continue;
      }
      if (yi > lng) != (yj > lng) && lat < UtilIntercept(lng, polygon[i], polygon[j]) {
        inside := !inside;
      }
      j := i;
      i := i + 1;
    }
    return Ok(inside);
  }

  /** An edge parallel to either axis never passes the variant test. */
  predicate AxisParallel(ci: Corner, cj: Corner) {
    ci.latitude == cj.latitude || ci.longitude == cj.longitude
  }

  /**
   * As written, a polygon whose edges all run along a meridian or a parallel (every
   * rectangle aligned with the axes) has no crossing edge at all, whatever the point.
   */
  lemma {:induction false} UtilAxisParallelNoCrossings(latitude: real, longitude: real, corners: seq<Corner>, upTo: nat)
    requires upTo <= |corners|
    requires forall i :: 0 <= i < |corners| ==> AxisParallel(corners[i], corners[Prev(i, |corners|)])
    ensures UtilCrossings(latitude, longitude, corners, upTo) == 0
  {
    if upTo > 0 {
      UtilAxisParallelNoCrossings(latitude, longitude, corners, upTo - 1);
      var i := upTo - 1;
      assert AxisParallel(corners[i], corners[Prev(i, |corners|)]);
    }
  }

  /** A corner as a request body carries it. */
  function CornerValue(c: Corner): JsValue {
    Obj(map["latitude" := Num(c.latitude), "longitude" := Num(c.longitude)])
  }

  /**
   * The discrepancy, as written: for any rectangle between two parallels and two meridians,
   * the corners pass validation and the plain ray cast places the centre inside, yet the
   * variant finds no crossing edge, so `CheckGeofenceUtil` answers `Ok(false)` for the
   * centre (for the unit square: the point (0.5, 0.5)).
   */
  lemma UtilRejectsRectangleCentre(south: real, west: real, north: real, east: real)
    requires south < north && west < east
    ensures var body := seq(4, k requires 0 <= k < 4 => CornerValue(Rectangle(south, west, north, east)[k]));
      && FirstInvalidCorner(body).None?
      && ToCorners(body) == Rectangle(south, west, north, east)
      && Inside((south + north) / 2.0, (west + east) / 2.0, Rectangle(south, west, north, east))
      && !UtilInside((south + north) / 2.0, (west + east) / 2.0, ToCorners(body))
  {
    var rect := Rectangle(south, west, north, east);
    var body := seq(4, k requires 0 <= k < 4 => CornerValue(rect[k]));
    forall k | 0 <= k < 4
      ensures ValidCorner(body[k]) && CornerOf(body[k]) == rect[k]
    {
      assert Property(body[k], "latitude") == Num(rect[k].latitude);
      assert Property(body[k], "longitude") == Num(rect[k].longitude);
    }
    assert ToCorners(body) == rect;
    RectangleExamples(south, west, north, east);
    assert AxisParallel(rect[0], rect[3]);
    assert forall i :: 1 <= i < 4 ==> AxisParallel(rect[i], rect[i - 1]);
    UtilAxisParallelNoCrossings((south + north) / 2.0, (west + east) / 2.0, rect, 4);
  }

  /**
   * The evidently intended variant: straddling is tested on longitude, so the intercept
   * divides by the longitude difference, which the straddle test keeps non-zero; no skip.
   */
  predicate IntendedUtilEdgeCrosses(latitude: real, longitude: real, ci: Corner, cj: Corner) {
    && (ci.longitude > longitude) != (cj.longitude > longitude)
    && latitude < IntendedUtilIntercept(longitude, ci, cj)
  }

  /** The latitude at which the edge meets the given longitude. */
  function IntendedUtilIntercept(longitude: real, ci: Corner, cj: Corner): real
    requires ci.longitude != cj.longitude
  {
    (cj.latitude - ci.latitude) * (longitude - ci.longitude) / (cj.longitude - ci.longitude) + ci.latitude
  }

  function IntendedUtilCrossings(latitude: real, longitude: real, corners: seq<Corner>, upTo: nat): (c: nat)
    requires upTo <= |corners|
    ensures c <= upTo
  {
    if upTo == 0 then 0
    else
      var i := upTo - 1;
      IntendedUtilCrossings(latitude, longitude, corners, i)
      + (if IntendedUtilEdgeCrosses(latitude, longitude, corners[i], corners[Prev(i, |corners|)]) then 1 else 0)
  }

  predicate IntendedUtilInside(latitude: real, longitude: real, corners: seq<Corner>) {
    IntendedUtilCrossings(latitude, longitude, corners, |corners|) % 2 == 1
  }

  /** The polygon with latitude and longitude exchanged. */
  function Swapped(corners: seq<Corner>): (r: seq<Corner>)
    ensures |r| == |corners|
    ensures forall k :: 0 <= k < |r| ==> r[k] == SwapCorner(corners[k])
  {
    seq(|corners|, k requires 0 <= k < |corners| => SwapCorner(corners[k]))
  }

  /**
   * The intended variant is the even-odd ray cast of `checkGeofence` with the roles of
   * latitude and longitude exchanged, edge by edge.
   */
  lemma {:induction false} IntendedUtilCrossingsMatchSwapped(latitude: real, longitude: real, corners: seq<Corner>, upTo: nat)
    requires upTo <= |corners|
    ensures IntendedUtilCrossings(latitude, longitude, corners, upTo) == Crossings(longitude, latitude, Swapped(corners), upTo)
  {
    if upTo > 0 {
      IntendedUtilCrossingsMatchSwapped(latitude, longitude, corners, upTo - 1);
      var i := upTo - 1;
      var s := Swapped(corners);
      EdgeSwap(latitude, longitude, corners[i], corners[Prev(i, |corners|)]);
      assert s[i] == SwapCorner(corners[i]);
      assert s[Prev(i, |corners|)] == SwapCorner(corners[Prev(i, |corners|)]);
    }
  }

  function SwapCorner(c: Corner): Corner {
    Corner(c.longitude, c.latitude)
  }

  /** One edge: the intended test is the plain test on the swapped edge. */
  lemma EdgeSwap(latitude: real, longitude: real, ci: Corner, cj: Corner)
    ensures IntendedUtilEdgeCrosses(latitude, longitude, ci, cj) == EdgeCrosses(longitude, latitude, SwapCorner(ci), SwapCorner(cj))
  {
    if ci.longitude != cj.longitude {
      assert IntendedUtilIntercept(longitude, ci, cj) == Intercept(longitude, SwapCorner(ci), SwapCorner(cj));
    }
  }

  /** The intended variant decides membership exactly as the plain ray cast does on the swapped polygon. */
  lemma IntendedUtilInsideAgrees(latitude: real, longitude: real, corners: seq<Corner>)
    ensures IntendedUtilInside(latitude, longitude, corners) == Inside(longitude, latitude, Swapped(corners))
  {
    IntendedUtilCrossingsMatchSwapped(latitude, longitude, corners, |corners|);
  }

  /** An edge along a parallel meets every longitude at its own latitude. */
  lemma ParallelIntercept(longitude: real, ci: Corner, cj: Corner)
    requires ci.longitude != cj.longitude && ci.latitude == cj.latitude
    ensures IntendedUtilIntercept(longitude, ci, cj) == ci.latitude
  {
    var t := longitude - ci.longitude;
    var q := cj.longitude - ci.longitude;
    assert cj.latitude - ci.latitude == 0.0;
    assert 0.0 * t == 0.0;
    assert 0.0 / q == 0.0;
  }

  /** The intended variant finds the centre of a rectangle inside it, as the plain ray cast does. */
  lemma IntendedUtilAcceptsRectangleCentre(south: real, west: real, north: real, east: real)
    requires south < north && west < east
    ensures IntendedUtilInside((south + north) / 2.0, (west + east) / 2.0, Rectangle(south, west, north, east))
  {
    var lat, lng := (south + north) / 2.0, (west + east) / 2.0;
    var a, b, c, d := Corner(south, west), Corner(south, east), Corner(north, east), Corner(north, west);
    var p := [a, b, c, d];
    ParallelIntercept(lng, b, a);
    ParallelIntercept(lng, d, c);
    assert !IntendedUtilEdgeCrosses(lat, lng, a, d);
    assert !IntendedUtilEdgeCrosses(lat, lng, b, a);
    assert !IntendedUtilEdgeCrosses(lat, lng, c, b);
    assert IntendedUtilEdgeCrosses(lat, lng, d, c);
    assert IntendedUtilCrossings(lat, lng, p, 1) == 0;
    assert IntendedUtilCrossings(lat, lng, p, 2) == 0;
    assert IntendedUtilCrossings(lat, lng, p, 3) == 0;
    assert IntendedUtilCrossings(lat, lng, p, 4) == 1;
  }

  // ---------------------------------------------------------------- handleDeviceValidationUtil

  const InvalidMatricMessage := "Invalid matricNumber"
  const DeviceValidationErrorPrefix := "Error validating device: "
  const StudentNotFoundMessage := "Student not found"
  const DeviceTakenOverrideMessage := "This device is already tied to another student account, request override"
  const UploadSelfieMessage := "Please upload a selfie to register this device"
  const DifferentDeviceMessage := "You are using a different device than your registered one"

  /** The four answers of the ladder, in the order it tries them. */
  datatype UtilVerdict =
    | UtilConflict(message: string, conflictInfo: OwnerInfo)
    | RequiresSelfie(message: string)
    | AlreadyRegistered
    | RequiresDeviceChange(message: string)
  {
    /** The `success` field of the returned object. */
    predicate Success() {
      this.AlreadyRegistered?
    }
  }

  /** `findOne({deviceId, matricNumber: {$ne: matricNumber}})`: the first holder of the device with another matric number. */
  function OtherHolder(users: seq<User>, matricNumber: string, deviceId: string): Option<nat> {
    FirstMatch(users, (u: User) => u.deviceId == Some(deviceId) && u.matricNumber != Some(matricNumber))
  }

  /**
   * `handleDeviceValidationUtil(matricNumber, deviceId)`: never writes.  The device query runs
   * only for a non-empty device id; the registered-device checks read the caller's record.
   */
  function HandleDeviceValidationUtil(users: seq<User>, matricNumber: JsValue, deviceId: string): (r: Result<UtilVerdict>)
    ensures !(matricNumber.Str? && matricNumber.s != "") ==> r == Err(BadRequest(InvalidMatricMessage))
    ensures matricNumber.Str? && matricNumber.s != "" && UserByMatric(users, matricNumber.s).None?
      ==> r == Err(BadRequest(DeviceValidationErrorPrefix + StudentNotFoundMessage))
    ensures r.Ok? ==> matricNumber.Str? && UserByMatric(users, matricNumber.s).Some?
    ensures r.Ok? && r.value.UtilConflict? <==>
      r.Ok? && deviceId != "" && OtherHolder(users, matricNumber.s, deviceId).Some?
    ensures r.Ok? && r.value.UtilConflict? ==>
      var h := users[OtherHolder(users, matricNumber.s, deviceId).value];
      r.value == UtilConflict(DeviceTakenOverrideMessage, OwnerInfo(h.matricNumber, h.name, h.selfie))
    ensures r.Ok? && !r.value.UtilConflict? ==>
      var own := users[UserByMatric(users, matricNumber.s).value].deviceId;
      && (r.value.RequiresSelfie? <==> own.None? || own == Some(""))
      && (r.value == AlreadyRegistered <==> own == Some(deviceId) && deviceId != "")
      && (r.value.RequiresDeviceChange? <==> own.Some? && own != Some("") && own != Some(deviceId))
  {
    if !(matricNumber.Str? && matricNumber.s != "") then Err(BadRequest(InvalidMatricMessage))
    else
      var m := matricNumber.s;
      match UserByMatric(users, m)
      case None => Err(BadRequest(DeviceValidationErrorPrefix + StudentNotFoundMessage))
      case Some(k) =>
        var holder := if deviceId != "" then OtherHolder(users, m, deviceId) else None;
        if holder.Some? then
          var h := users[holder.value];
          Ok(UtilConflict(DeviceTakenOverrideMessage, OwnerInfo(h.matricNumber, h.name, h.selfie)))
        else if users[k].deviceId.None? || users[k].deviceId == Some("") then Ok(RequiresSelfie(UploadSelfieMessage))
        else if users[k].deviceId == Some(deviceId) then Ok(AlreadyRegistered)
        else Ok(RequiresDeviceChange(DifferentDeviceMessage))
  }

  /**
   * The two policies agree on conflicts: when devices are exclusive and the caller exists,
   * the read-only ladder reports a conflict exactly when the auto-binding validator rejects.
   */
  lemma UtilConflictAgreesWithAutoBind(users: seq<User>, matricNumber: string, deviceId: string)
    requires DeviceExclusive(users)
    requires matricNumber != "" && deviceId != ""
    requires UserByMatric(users, matricNumber).Some?
    ensures HandleDeviceValidationUtil(users, Str(matricNumber), deviceId).Ok?
    ensures HandleDeviceValidationUtil(users, Str(matricNumber), deviceId).value.UtilConflict?
        <==> DeviceDecision(users, matricNumber, deviceId).DeviceRejected?
  {
    DecisionMatchesHolder(users, matricNumber, deviceId);
    var r := HandleDeviceValidationUtil(users, Str(matricNumber), deviceId);
    if DeviceDecision(users, matricNumber, deviceId).DeviceRejected? {
      var k :| 0 <= k < |users| && users[k].deviceId == Some(deviceId) && users[k].matricNumber != Some(matricNumber);
      assert OtherHolder(users, matricNumber, deviceId).Some?;
    }
  }

  /** A caller the ladder finds already registered is accepted by the auto-binding validator too, which then writes nothing. */
  lemma AlreadyRegisteredMeansNoRebind(users: seq<User>, matricNumber: string, deviceId: string)
    requires HandleDeviceValidationUtil(users, Str(matricNumber), deviceId) == Ok(AlreadyRegistered)
    ensures DeviceDecision(users, matricNumber, deviceId) == DeviceAccepted
    ensures AfterDeviceValidation(users, matricNumber, deviceId) == users
  {
    var c := UserByMatric(users, matricNumber).value;
    assert users[c].deviceId == Some(deviceId);
    var h := UserByDevice(users, deviceId).value;
    assert OtherHolder(users, matricNumber, deviceId).None?;
    assert users[h].matricNumber == Some(matricNumber);
  }

  // ---------------------------------------------------------------- fetchOriginalOwnerUtil

  const InvalidDeviceIdMessage := "Invalid deviceId"

  /** The util lookup's conflictInfo also carries the device id and the holder's id. */
  datatype HolderInfo = HolderInfo(matricNumber: Option<string>, name: string, selfie: Option<string>, deviceId: string, id: string)

  /** `fetchOriginalOwnerUtil(deviceId)`: `Ok(None)` is `{success: true}` with no conflictInfo. */
  function FetchOriginalOwnerUtil(users: seq<User>, deviceId: JsValue): (r: Result<Option<HolderInfo>>)
    ensures !(deviceId.Str? && deviceId.s != "") <==> r == Err(BadRequest(InvalidDeviceIdMessage))
    ensures r.Ok? ==> (r.value.Some? <==> exists k :: 0 <= k < |users| && users[k].deviceId == Some(deviceId.s))
    ensures r.Ok? && r.value.Some? ==>
      && UserByDevice(users, deviceId.s).Some?
      && var h := users[UserByDevice(users, deviceId.s).value];
      && r.value.value == HolderInfo(h.matricNumber, h.name, h.selfie, deviceId.s, h.id)
  {
    if !(deviceId.Str? && deviceId.s != "") then Err(BadRequest(InvalidDeviceIdMessage))
    else
      match UserByDevice(users, deviceId.s)
      case None => Ok(None)
      case Some(k) => Ok(Some(HolderInfo(users[k].matricNumber, users[k].name, users[k].selfie, deviceId.s, users[k].id)))
  }

  /** Both lookups name the same holder: the util's answer extends the plain one with the device and holder ids. */
  lemma OwnerLookupsAgree(users: seq<User>, deviceId: string)
    requires deviceId != ""
    ensures var plain := FetchOriginalOwner(users, deviceId, false);
      var util := FetchOriginalOwnerUtil(users, Str(deviceId));
      && util.Ok?
      && (util.value.Some? <==> plain.conflictInfo.Some?)
      && (util.value.Some? ==>
            plain.conflictInfo.value
            == OwnerInfo(util.value.value.matricNumber, util.value.value.name, util.value.value.selfie))
  {
  }
}
