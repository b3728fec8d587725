/** Shared wrappers, the error taxonomy of the HTTP layer and a few text helpers. */
module Common {

  datatype Option<+T> = None | Some(value: T)

  /** The holder of a contested device, as the device validators report it. */
  datatype ConflictInfo = ConflictInfo(matricNumber: Option<string>, name: string)

  /**
   * How a handler ends when it does not succeed.  BadRequest, NotFound and InternalServer
   * are the custom error classes (status 400, 404, 500); DeviceConflict is a BadRequestError
   * that also carries `{requiresOverride: true, conflictInfo}`; Uncaught is any other thrown
   * value (a TypeError, a schema validation error, a duplicate-key error), which the error
   * middleware answers with status 500 and the error's own message.
   */
  datatype ApiError =
    | BadRequest(message: string)
    | DeviceConflict(message: string, conflict: Option<ConflictInfo>)
    | NotFound(message: string)
    | InternalServer(message: string)
    | Uncaught(message: string)
  {
    function Status(): nat {
      match this
      case BadRequest(_) => 400
      case DeviceConflict(_, _) => 400
      case NotFound(_) => 404
      case InternalServer(_) => 500
      case Uncaught(_) => 500
    }
  }

  datatype Result<+T> = Ok(value: T) | Err(error: ApiError)

  /** A check that either passes or throws. */
  datatype Outcome = Pass | Fail(error: ApiError)

  /** Total number of characters in a list of strings. */
  function TotalLength(parts: seq<string>): nat {
    if parts == [] then 0 else |parts[0]| + TotalLength(parts[1..])
  }

  /** `Array.prototype.join(sep)` over strings. */
  function Join(parts: seq<string>, sep: string): (r: string)
    ensures |parts| > 0 ==> parts[0] <= r
    ensures |parts| > 0 ==> |r| == TotalLength(parts) + (|parts| - 1) * |sep|
    ensures |parts| == 0 ==> r == ""
  {
    if |parts| == 0 then ""
    else if |parts| == 1 then parts[0]
    else parts[0] + sep + Join(parts[1..], sep)
  }

  predicate IsDigit(c: char) {
    '0' <= c <= '9'
  }

  function DigitChar(d: nat): (c: char)
    requires d < 10
    ensures IsDigit(c) && c as int - '0' as int == d
  {
    ('0' as int + d) as char
  }

  /** The decimal text JavaScript produces for a non-negative integer in a template literal. */
  function NatToString(n: nat): (s: string)
    ensures |s| >= 1
    ensures forall k :: 0 <= k < |s| ==> IsDigit(s[k])
    ensures s[0] == '0' ==> n == 0
  {
    if n < 10 then [DigitChar(n)] else NatToString(n / 10) + [DigitChar(n % 10)]
  }

  /** Reads a run of decimal digits back as a number. */
  function ParseNat(s: string): nat
    requires forall k :: 0 <= k < |s| ==> IsDigit(s[k])
  {
    if s == [] then 0 else ParseNat(s[..|s| - 1]) * 10 + DigitValue(s[|s| - 1])
  }

  function DigitValue(c: char): nat
    requires IsDigit(c)
  {
    c as int - '0' as int
  }

  /** The decimal rendering loses nothing: reading it back gives the number. */
  lemma {:induction false} NatToStringRoundTrip(n: nat)
    ensures ParseNat(NatToString(n)) == n
  {
    var s := NatToString(n);
    if n >= 10 {
      NatToStringRoundTrip(n / 10);
      assert s[..|s| - 1] == NatToString(n / 10);
    } else {
      assert s[..|s| - 1] == [];
    }
  }
}
