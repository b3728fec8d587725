/**
 * The two required-field validators: `validateRequiredFields` (src/utils/validateRequiredFields.js)
 * and `validateRequiredFieldsUtil` (src/utils/global/validate_required_fields_util.js).  Both keep
 * the fields whose value in the data is falsy, in the order of the field list, and throw a
 * BadRequestError listing them; they differ only in the message prefix.
 */
module RequiredFields {
  import opened Common
  import opened JsValues

  const MissingPrefix := "Missing required fields: "
  const UtilMissingPrefix := " Missing required fields: "

  /** `fields.filter((field) => !data[field])` */
  function MissingFields(fields: seq<string>, data: map<string, JsValue>): (missing: seq<string>)
    ensures |missing| <= |fields|
    ensures forall f :: f in missing <==> f in fields && !Truthy(Get(data, f))
  {
    if fields == [] then []
    else
      var rest := MissingFields(fields[1..], data);
      if Truthy(Get(data, fields[0])) then rest else [fields[0]] + rest
  }

  /** Filtering keeps the field-list order: the missing fields of a concatenation are those of each part, in turn. */
  lemma {:induction false} MissingFieldsKeepOrder(a: seq<string>, b: seq<string>, data: map<string, JsValue>)
    ensures MissingFields(a + b, data) == MissingFields(a, data) + MissingFields(b, data)
  {
    if a != [] {
      assert (a + b)[1..] == a[1..] + b;
      MissingFieldsKeepOrder(a[1..], b, data);
    } else {
      assert a + b == b;
    }
  }

  /** A field list with no falsy value has nothing missing. */
  lemma {:induction false} NothingMissingWhenAllTruthy(fields: seq<string>, data: map<string, JsValue>)
    requires forall k :: 0 <= k < |fields| ==> Truthy(Get(data, fields[k]))
    ensures MissingFields(fields, data) == []
  {
    if fields != [] {
      NothingMissingWhenAllTruthy(fields[1..], data);
    }
  }

  /** src/utils/validateRequiredFields.js: returns normally iff every listed field is truthy. */
  function ValidateRequiredFields(fields: seq<string>, data: map<string, JsValue>): (r: Outcome)
    ensures r.Pass? <==> forall f :: f in fields ==> Truthy(Get(data, f))
    ensures r.Fail? ==> r.error == BadRequest(MissingPrefix + Join(MissingFields(fields, data), ", "))
  {
    var missing := MissingFields(fields, data);
    if |missing| > 0 then assert missing[0] in missing; Fail(BadRequest(MissingPrefix + Join(missing, ", "))) else Pass
  }

  /** src/utils/global/validate_required_fields_util.js: the same check, message with a leading space. */
  function ValidateRequiredFieldsUtil(fields: seq<string>, data: map<string, JsValue>): (r: Outcome)
    ensures r.Pass? <==> forall f :: f in fields ==> Truthy(Get(data, f))
    ensures r.Fail? ==> r.error == BadRequest(UtilMissingPrefix + Join(MissingFields(fields, data), ", "))
  {
    var missing := MissingFields(fields, data);
    if |missing| > 0 then assert missing[0] in missing; Fail(BadRequest(UtilMissingPrefix + Join(missing, ", "))) else Pass
  }

  /** When something is missing, the message names the first missing field right after the prefix. */
  lemma FirstMissingNamedFirst(fields: seq<string>, data: map<string, JsValue>)
    requires ValidateRequiredFields(fields, data).Fail?
    ensures MissingFields(fields, data) != []
    ensures MissingPrefix + MissingFields(fields, data)[0] <= ValidateRequiredFields(fields, data).error.message
  {
  }

  /** Truthiness, not presence: a latitude of 0 counts as missing. */
  lemma LatitudeZeroIsMissing()
    ensures ValidateRequiredFields(["latitude"], map["latitude" := Num(0.0)])
         == Fail(BadRequest("Missing required fields: latitude"))
  {
    assert MissingFields(["latitude"], map["latitude" := Num(0.0)]) == ["latitude"];
  }
}
