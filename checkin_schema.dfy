/**
 * The check-in document: its stored shape, the fields a request supplies, and the
 * schema's `required` checks and defaults applied when a document is created.
 */
module CheckInSchema {
  import opened Wrappers
  import opened JsValues

  /** Server-assigned document id. */
  type RecordId = nat

  /**
   * A stored check-in. `user` is the id taken from the token; `dateTime` is the schema
   * default (creation time); `createdAt`/`updatedAt` come from the timestamps option.
   * Times are milliseconds since the epoch; coordinates are carried, never computed with.
   */
  datatype CheckInRecord = CheckInRecord(
    id: RecordId,
    user: JsValue,
    checkInLocation: string,
    latitude: real,
    longitude: real,
    currentAddress: string,
    dateTime: int,
    createdAt: int,
    updatedAt: int)

  /** The four request-body fields the controller copies; None is `undefined` or `null`. */
  datatype CheckInBody = CheckInBody(
    checkInLocation: Option<string>,
    latitude: Option<real>,
    longitude: Option<real>,
    currentAddress: Option<string>)

  /** The required paths of the schema, in declaration order. */
  datatype Field = UserField | CheckInLocationField | LatitudeField | LongitudeField | CurrentAddressField

  const RequiredFields: seq<Field> := [UserField, CheckInLocationField, LatitudeField, LongitudeField, CurrentAddressField]

  /** `required` on a String path: present and not the empty string. */
  predicate StringPresent(s: Option<string>) {
    s.Some? && s.value != ""
  }

  /** `required` on a Number path: present; any number, zero included, with no range limit. */
  predicate NumberPresent(x: Option<real>) {
    x.Some?
  }

  /** `required` on the ObjectId path: neither null nor undefined. */
  predicate RefPresent(v: JsValue) {
    !v.Undefined? && !v.Null?
  }

  /** Whether the required check of `f` passes for this user reference and body. */
  predicate Satisfied(f: Field, user: JsValue, body: CheckInBody) {
    match f
    case UserField => RefPresent(user)
    case CheckInLocationField => StringPresent(body.checkInLocation)
    case LatitudeField => NumberPresent(body.latitude)
    case LongitudeField => NumberPresent(body.longitude)
    case CurrentAddressField => StringPresent(body.currentAddress)
  }

  /** The required paths of `fields` that fail, kept in order. */
  function Failing(fields: seq<Field>, user: JsValue, body: CheckInBody): (missing: seq<Field>)
    ensures forall f :: f in missing <==> f in fields && !Satisfied(f, user, body)
    ensures |missing| <= |fields|
  {
    if fields == [] then []
    else
      var rest := Failing(fields[1..], user, body);
      assert forall f :: f in fields <==> f == fields[0] || f in fields[1..];
      if Satisfied(fields[0], user, body) then rest else [fields[0]] + rest
  }

  /** All four body fields pass their required checks. */
  predicate CompleteBody(body: CheckInBody) {
    StringPresent(body.checkInLocation) && NumberPresent(body.latitude) && NumberPresent(body.longitude)
    && StringPresent(body.currentAddress)
  }

  /** Every path of the schema is in the required list. */
  lemma EveryFieldIsRequired(f: Field)
    ensures f in RequiredFields
  {
    match f
    case UserField => assert RequiredFields[0] == f;
    case CheckInLocationField => assert RequiredFields[1] == f;
    case LatitudeField => assert RequiredFields[2] == f;
    case LongitudeField => assert RequiredFields[3] == f;
    case CurrentAddressField => assert RequiredFields[4] == f;
  }

  /** The validation errors of a create: every required path that fails. */
  function MissingFields(user: JsValue, body: CheckInBody): (missing: seq<Field>)
    ensures forall f :: f in missing <==> !Satisfied(f, user, body)
  {
    forall f: Field ensures f in RequiredFields {
      EveryFieldIsRequired(f);
    }
    Failing(RequiredFields, user, body)
  }

  /**
   * `CheckIn.create(...)` at time `now`: validation, then a document with the given id,
   * the request's fields and every timestamp set to `now`. Nothing is stored on failure.
   */
  function NewCheckIn(id: RecordId, user: JsValue, body: CheckInBody, now: int): (r: Result<CheckInRecord, seq<Field>>)
    ensures r.Ok? <==> RefPresent(user) && StringPresent(body.checkInLocation) && NumberPresent(body.latitude)
                       && NumberPresent(body.longitude) && StringPresent(body.currentAddress)
    ensures r.Ok? ==> r.value.id == id && r.value.user == user
                      && Some(r.value.checkInLocation) == body.checkInLocation
                      && Some(r.value.latitude) == body.latitude
                      && Some(r.value.longitude) == body.longitude
                      && Some(r.value.currentAddress) == body.currentAddress
    ensures r.Ok? ==> r.value.dateTime == now && r.value.createdAt == now && r.value.updatedAt == now
    ensures r.Err? ==> r.error != [] && forall f :: f in r.error <==> !Satisfied(f, user, body)
  {
    var missing := MissingFields(user, body);
    assert missing == [] <==> forall f: Field :: Satisfied(f, user, body) by {
      if missing != [] { assert missing[0] in missing; }
    }
    assert (forall f: Field :: Satisfied(f, user, body)) <==>
      Satisfied(UserField, user, body) && Satisfied(CheckInLocationField, user, body) && Satisfied(LatitudeField, user, body)
      && Satisfied(LongitudeField, user, body) && Satisfied(CurrentAddressField, user, body);
    if missing != [] then Err(missing)
    else
      Ok(CheckInRecord(id, user, body.checkInLocation.value, body.latitude.value, body.longitude.value,
                       body.currentAddress.value, now, now, now))
  }
}
